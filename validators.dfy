/** The client-side checks of the web application: the e-mail and
    password patterns and the wallet ownership message. Each pattern is
    given twice: as a one-pass scan, the way a matcher reads the string,
    and as a plain statement of which strings match, with a lemma that the
    two agree on every input. */
module Validators {

  /** JavaScript's `\s`: the ASCII blanks, NBSP, the Unicode space
      separators, the line and paragraph separators and the BOM. */
  predicate IsSpace(c: char) {
    c == ' ' || c == '\t' || c == '\n' || c == '\U{B}' || c == '\U{C}' || c == '\r'
    || c == '\U{A0}' || c == '\U{1680}' || ('\U{2000}' <= c <= '\U{200A}')
    || c == '\U{2028}' || c == '\U{2029}' || c == '\U{202F}' || c == '\U{205F}'
    || c == '\U{3000}' || c == '\U{FEFF}'
  }

  // ---- e-mail: /^[^\s@]+@[^\s@]+\.[^\s@]+$/ ----

  /** A '.' with at least one character on each side of it. */
  ghost predicate InnerDot(d: string) {
    exists k :: 1 <= k < |d| - 1 && d[k] == '.'
  }

  /** Position a holds the only '@' of s, with text before it and a usable
      '.' after it. */
  ghost predicate SplitsAt(s: string, a: int) {
    0 < a < |s| && s[a] == '@'
    && (forall i :: 0 <= i < |s| && i != a ==> s[i] != '@')
    && InnerDot(s[a + 1..])
  }

  /** What the pattern accepts: no blank, exactly one '@', something
      before it, and after it a '.' with text on both sides. */
  ghost predicate EmailShape(s: string) {
    (forall i :: 0 <= i < |s| ==> !IsSpace(s[i])) && exists a :: SplitsAt(s, a)
  }

  /** The matcher's states: start, in the local part, just after '@', in
      the domain before a usable '.', just after such a '.', accepted, and
      failed. */
  datatype EmailState = Start | Local | AtSign | Domain | Dot | Accept | Fail

  function EmailStep(st: EmailState, c: char): EmailState {
    if IsSpace(c) then Fail
    else if c == '@' then (if st == Local then AtSign else Fail)
    else match st
      case Start => Local
      case Local => Local
      case AtSign => Domain
      case Domain => if c == '.' then Dot else Domain
      case Dot => Accept
      case Accept => Accept
      case Fail => Fail
  }

  /** The state after reading `s` left to right. */
  function EmailScan(s: string): EmailState {
    if s == [] then Start else EmailStep(EmailScan(s[..|s| - 1]), s[|s| - 1])
  }

  // The state the matcher must be in after a prefix, stated directly.

  function IndexOfAt(s: string): (r: int)
    ensures -1 <= r < |s|
    ensures r >= 0 ==> s[r] == '@' && forall i :: 0 <= i < r ==> s[i] != '@'
    ensures r < 0 ==> forall i :: 0 <= i < |s| ==> s[i] != '@'
  {
    if s == [] then -1
    else if s[0] == '@' then 0
    else
      var r := IndexOfAt(s[1..]);
      assert forall i :: 1 <= i < |s| ==> s[i] == s[1..][i - 1];
      if r < 0 then -1 else r + 1
  }

  /** Some character of s is a JavaScript blank. */
  ghost predicate HasSpace(s: string) {
    exists i :: 0 <= i < |s| && IsSpace(s[i])
  }

  ghost predicate HasAt(s: string) {
    exists i :: 0 <= i < |s| && s[i] == '@'
  }

  /** The state the matcher must be in after reading `d` following the
      '@'. */
  ghost function DomainState(d: string): EmailState {
    if HasAt(d) then Fail
    else if d == [] then AtSign
    else if InnerDot(d) then Accept
    else if |d| >= 2 && d[|d| - 1] == '.' then Dot
    else Domain
  }

  ghost function Classify(s: string): EmailState {
    if HasSpace(s) then Fail
    else
      var a := IndexOfAt(s);
      if a < 0 then (if s == [] then Start else Local)
      else if a == 0 then Fail
      else DomainState(s[a + 1..])
  }

  /** Reading one more character moves the directly stated state exactly
      as the matcher does. */
  lemma ClassifyStep(s: string, c: char)
    ensures Classify(s + [c]) == EmailStep(Classify(s), c)
  {
    var t := s + [c];
    assert forall i :: 0 <= i < |s| ==> t[i] == s[i];
    assert t[|s|] == c;
    if HasSpace(s) {
      var i :| 0 <= i < |s| && IsSpace(s[i]);
      assert IsSpace(t[i]);
    } else if IsSpace(c) {
      assert IsSpace(t[|s|]);
    } else {
      assert !HasSpace(t);
      var a := IndexOfAt(s);
      if a < 0 {
        if c == '@' {
          assert IndexOfAt(t) == |s|;
          assert t[|s| + 1..] == [];
        } else {
          assert IndexOfAt(t) < 0;
        }
      } else {
        assert IndexOfAt(t) == a;
        assert t[a + 1..] == s[a + 1..] + [c];
        if a > 0 {
          DomainStep(s[a + 1..], c);
        }
      }
    }
  }

  /** The domain part of the classification, one character further. */
  lemma DomainStep(d: string, c: char)
    requires !IsSpace(c)
    ensures DomainState(d + [c]) == EmailStep(DomainState(d), c)
  {
    var e := d + [c];
    assert forall i :: 0 <= i < |d| ==> e[i] == d[i];
    if HasAt(d) {
      var i :| 0 <= i < |d| && d[i] == '@';
      assert e[i] == '@';
    } else if c == '@' {
      assert e[|d|] == '@';
    } else {
      assert !HasAt(e);
      EmailDomainStep(d, c);
    }
  }

  /** The usable-dot part of the domain, one character further. */
  lemma EmailDomainStep(d: string, c: char)
    requires c != '@' && !IsSpace(c)
    ensures var e := d + [c];
      (InnerDot(e) <==> InnerDot(d) || (|d| >= 2 && d[|d| - 1] == '.'))
  {
    var e := d + [c];
    assert forall i :: 0 <= i < |d| ==> e[i] == d[i];
    if InnerDot(e) {
      var k :| 1 <= k < |e| - 1 && e[k] == '.';
      if k < |d| - 1 {
        assert d[k] == '.';
      } else {
        assert k == |d| - 1 && d[|d| - 1] == '.';
      }
    }
    if InnerDot(d) {
      var k :| 1 <= k < |d| - 1 && d[k] == '.';
      assert e[k] == '.';
    }
    if |d| >= 2 && d[|d| - 1] == '.' {
      assert e[|d| - 1] == '.';
    }
  }

  /** The matcher is in the directly stated state after every input. */
  lemma {:induction false} ScanClassifies(s: string)
    ensures EmailScan(s) == Classify(s)
    decreases |s|
  {
    if s == [] {
      assert IndexOfAt(s) == -1;
    } else {
      var p := s[..|s| - 1];
      ScanClassifies(p);
      assert s == p + [s[|s| - 1]];
      ClassifyStep(p, s[|s| - 1]);
    }
  }

  /** The only split point is the first '@'. */
  lemma SplitIsFirstAt(s: string, a: int)
    requires SplitsAt(s, a)
    ensures IndexOfAt(s) == a
  {}

  /** An accepting classification splits at the first '@'. */
  lemma AcceptSplits(s: string)
    requires Classify(s) == Accept
    ensures SplitsAt(s, IndexOfAt(s))
  {
    var a := IndexOfAt(s);
    var d := s[a + 1..];
    forall i | 0 <= i < |s| && i != a
      ensures s[i] != '@'
    {
      if i > a { assert d[i - a - 1] == s[i]; }
    }
  }

  /** The scan accepts exactly the strings of the stated shape. */
  lemma EmailScanCorrect(s: string)
    ensures EmailScan(s) == Accept <==> EmailShape(s)
  {
    ScanClassifies(s);
    if EmailShape(s) {
      var b :| SplitsAt(s, b);
      SplitIsFirstAt(s, b);
      var d := s[b + 1..];
      assert !HasAt(d) by {
        forall i | 0 <= i < |d| ensures d[i] != '@' { assert d[i] == s[b + 1 + i]; }
      }
    }
    if Classify(s) == Accept {
      AcceptSplits(s);
    }
  }

  /** `validateEmail`: the one-pass match, which accepts exactly the
      strings of the stated shape. */
  function ValidateEmail(s: string): (ok: bool)
    ensures ok <==> EmailShape(s)
  {
    EmailScanCorrect(s);
    EmailScan(s) == Accept
  }

  /** Concrete accepted cases: a plain address, and a dot right after the
      '@' followed by a usable one. */
  lemma EmailExamples()
    ensures ValidateEmail("a@b.c")
    ensures ValidateEmail("a@.b.c")
  {
    assert "a@b.c"[..4] == "a@b.";
    assert "a@b."[..3] == "a@b";
    assert "a@b"[..2] == "a@" && "a@"[..1] == "a" && "a"[..0] == [];
    assert "a@.b.c"[..5] == "a@.b." && "a@.b."[..4] == "a@.b" && "a@.b"[..3] == "a@.";
    assert "a@."[..2] == "a@";
  }

  /** Concrete refused cases: a missing local part and a dot with nothing
      after it. */
  lemma EmailRefusals()
    ensures !ValidateEmail("@b.c")
    ensures !ValidateEmail("a@b.")
  {
    assert "a@b."[..3] == "a@b";
    assert "a@b"[..2] == "a@" && "a@"[..1] == "a" && "a"[..0] == [];
    assert "@b.c"[..3] == "@b." && "@b."[..2] == "@b" && "@b"[..1] == "@" && "@"[..0] == [];
  }

  /** Concrete refused cases: a second '@' and a blank. */
  lemma EmailRefusalsInside()
    ensures !ValidateEmail("a@b@c.d")
    ensures !ValidateEmail("a b@c.d")
  {
    assert "a@b@c.d"[..6] == "a@b@c." && "a@b@c."[..5] == "a@b@c" && "a@b@c"[..4] == "a@b@";
    assert "a@b@"[..3] == "a@b" && "a@b"[..2] == "a@" && "a@"[..1] == "a" && "a"[..0] == [];
    assert "a b@c.d"[..6] == "a b@c." && "a b@c."[..5] == "a b@c" && "a b@c"[..4] == "a b@";
    assert "a b@"[..3] == "a b" && "a b"[..2] == "a ";
    assert "a "[..1] == "a";
  }

  // ---- password: /^(?=.*[a-z])(?=.*[A-Z])(?=.*\d)(?=.*[@$!%*?&])[A-Za-z\d@$!%*?&]{8,}$/ ----

  predicate IsLower(c: char) { 'a' <= c <= 'z' }
  predicate IsUpper(c: char) { 'A' <= c <= 'Z' }
  predicate IsDigit(c: char) { '0' <= c <= '9' }
  predicate IsSpecial(c: char) {
    c == '@' || c == '$' || c == '!' || c == '%' || c == '*' || c == '?' || c == '&'
  }
  predicate PasswordChar(c: char) { IsLower(c) || IsUpper(c) || IsDigit(c) || IsSpecial(c) }

  /** What the pattern accepts: at least eight characters, all from the
      allowed alphabet, with one of each class somewhere. */
  ghost predicate PasswordShape(p: string) {
    |p| >= 8
    && (forall i :: 0 <= i < |p| ==> PasswordChar(p[i]))
    && (exists i :: 0 <= i < |p| && IsLower(p[i]))
    && (exists i :: 0 <= i < |p| && IsUpper(p[i]))
    && (exists i :: 0 <= i < |p| && IsDigit(p[i]))
    && (exists i :: 0 <= i < |p| && IsSpecial(p[i]))
  }

  /** What one pass over the string has seen so far. */
  datatype Seen = Seen(lower: bool, upper: bool, digit: bool, special: bool, allowed: bool)

  function PasswordScan(p: string): Seen {
    if p == [] then Seen(false, false, false, false, true)
    else
      var s := PasswordScan(p[..|p| - 1]);
      var c := p[|p| - 1];
      Seen(s.lower || IsLower(c), s.upper || IsUpper(c), s.digit || IsDigit(c),
           s.special || IsSpecial(c), s.allowed && PasswordChar(c))
  }

  /** Each flag of the scan is its class's presence in the string. */
  lemma {:induction false} PasswordScanSees(p: string)
    ensures var s := PasswordScan(p);
      && (s.lower <==> exists i :: 0 <= i < |p| && IsLower(p[i]))
      && (s.upper <==> exists i :: 0 <= i < |p| && IsUpper(p[i]))
      && (s.digit <==> exists i :: 0 <= i < |p| && IsDigit(p[i]))
      && (s.special <==> exists i :: 0 <= i < |p| && IsSpecial(p[i]))
      && (s.allowed <==> forall i :: 0 <= i < |p| ==> PasswordChar(p[i]))
    decreases |p|
  {
    if p != [] {
      var q := p[..|p| - 1];
      PasswordScanSees(q);
      assert forall i :: 0 <= i < |q| ==> q[i] == p[i];
    }
  }

  /** `validatePassword`: the length and the scan's flags, which accept
      exactly the strings of the stated shape. */
  function ValidatePassword(p: string): (ok: bool)
    ensures ok <==> PasswordShape(p)
  {
    PasswordScanSees(p);
    var s := PasswordScan(p);
    |p| >= 8 && s.lower && s.upper && s.digit && s.special && s.allowed
  }

  /** A character outside the alphabet refuses the password, whatever
      else it contains. */
  lemma ForeignCharRefuses(p: string, i: nat)
    requires i < |p| && !PasswordChar(p[i])
    ensures !ValidatePassword(p)
  {}

  lemma PasswordExamples()
    ensures ValidatePassword("Abcdef1!")
    ensures !ValidatePassword("Abcde1!")
    ensures !ValidatePassword("Abcdef1#")
    ensures !ValidatePassword("Abcdef 1!")
  {
    assert IsLower("Abcdef1!"[1]) && IsUpper("Abcdef1!"[0]) && IsDigit("Abcdef1!"[6]) && IsSpecial("Abcdef1!"[7]);
    ForeignCharRefuses("Abcdef1#", 7);
    ForeignCharRefuses("Abcdef 1!", 6);
  }

  // ---- the wallet ownership message ----

  const WalletMessagePrefix: string := "Please sign this message to verify your wallet ownership for address: "

  /** `generateWalletVerificationMessage` */
  function WalletVerificationMessage(address: string): (m: string)
    ensures |m| == |WalletMessagePrefix| + |address|
    ensures m[..|WalletMessagePrefix|] == WalletMessagePrefix
  {
    WalletMessagePrefix + address
  }

  /** The address is the message's suffix. */
  function AddressOfMessage(m: string): string
    requires |m| >= |WalletMessagePrefix|
  {
    m[|WalletMessagePrefix|..]
  }

  lemma MessageRecoversAddress(address: string)
    ensures AddressOfMessage(WalletVerificationMessage(address)) == address
  {}

  /** Distinct addresses are asked to sign distinct messages. */
  lemma MessageInjective(a: string, b: string)
    requires WalletVerificationMessage(a) == WalletVerificationMessage(b)
    ensures a == b
  {
    MessageRecoversAddress(a);
    MessageRecoversAddress(b);
  }
}
