/** The student controller's store: student users, their profiles, their
    education history, and the section progress `getCourseProgress` reads.
    Each handler is one atomic step. */
module Students {
  import opened Common
  import opened Progress

  type UserId = nat
  type CourseId = nat
  type SectionId = nat

  // ---- the Ethereum address pattern ----

  predicate IsHexDigit(c: char) {
    '0' <= c <= '9' || 'a' <= c <= 'f' || 'A' <= c <= 'F'
  }

  /** `/^0x[a-fA-F0-9]{40}$/`: "0x" (lower-case x) and exactly 40 hex digits. */
  predicate IsEthAddress(s: string) {
    |s| == 42 && s[0] == '0' && s[1] == 'x'
    && forall i :: 2 <= i < 42 ==> IsHexDigit(s[i])
  }

  /** The pattern keeps its shape under lowercasing, so an address that
      passes here still passes once a registry stores it lowercased. */
  lemma LowercasedAddressStillValid(s: string)
    requires IsEthAddress(s)
    ensures IsEthAddress(ToLower(s))
  {
    var t := ToLower(s);
    assert t[0] == '0' && t[1] == 'x';
    forall i | 2 <= i < 42 ensures IsHexDigit(t[i]) {
      assert t[i] == LowerChar(s[i]);
    }
  }

  /** Upper-case "0X", one digit too few and a non-hex digit are all refused. */
  lemma AddressPatternExamples()
    ensures IsEthAddress("0x" + seq(40, _ => 'a'))
    ensures !IsEthAddress("0X" + seq(40, _ => 'a'))
    ensures !IsEthAddress("0x" + seq(39, _ => 'a'))
    ensures !IsEthAddress("0x" + seq(39, _ => 'a') + "g")
  {
    var good := "0x" + seq(40, _ => 'a');
    assert forall i :: 2 <= i < 42 ==> good[i] == 'a';
    var bad := "0x" + seq(39, _ => 'a') + "g";
    assert bad[41] == 'g';
  }

  // ---- entities ----

  datatype StudentUser = StudentUser(username: string, email: string, password: PasswordHash, role: string)

  datatype Profile = Profile(
    firstName: Option<string>, lastName: Option<string>, bio: Option<string>,
    profileImage: Option<string>, address: Option<string>, phone: Option<string>,
    dateOfBirth: Option<int>, departmentId: Option<nat>, level: Option<string>,
    walletAddress: Option<string>, registeredAt: Option<int>, updatedAt: Option<int>)

  /** The body of `updateStudentProfile`; `None` is null or omitted. */
  datatype ProfileFields = ProfileFields(
    firstName: Option<string>, lastName: Option<string>, bio: Option<string>,
    profileImage: Option<string>, address: Option<string>, phone: Option<string>,
    dateOfBirth: Option<int>, departmentId: Option<nat>, level: Option<string>)

  datatype EducationInput = EducationInput(
    institution: Option<string>, degree: Option<string>, fieldOfStudy: Option<string>,
    startDate: Option<int>, endDate: Option<int>, grade: Option<string>, description: Option<string>)

  datatype EducationEntry = EducationEntry(user: UserId, entry: EducationInput)

  /** One `section_progress` row. */
  datatype SectionRow = SectionRow(user: UserId, course: CourseId, section: SectionId, completed: bool)

  // ---- responses ----

  datatype EducationResult = EducationMissingFields | EducationNoProfile | EducationAdded(entry: EducationEntry) {
    function Status(): nat {
      match this
      case EducationMissingFields => 400
      case EducationNoProfile => 404
      case EducationAdded(_) => 201
    }
  }

  datatype RegisterResult = RegisterMissingFields | RegisterTaken | RegisterCreated(id: UserId) {
    function Status(): nat {
      match this
      case RegisterMissingFields => 400
      case RegisterTaken => 409
      case RegisterCreated(_) => 201
    }
  }

  datatype WalletResult = WalletMissing | WalletMalformed | WalletTaken | WalletNoProfile | WalletConnected(profile: Profile) {
    function Status(): nat {
      match this
      case WalletMissing => 400
      case WalletMalformed => 400
      case WalletTaken => 409
      case WalletNoProfile => 404
      case WalletConnected(_) => 200
    }
  }

  datatype ProgressResult = ProgressNoCourse | ProgressNotEnrolled
    | CourseProgress(sections: seq<bool>, percentage: nat)
  {
    function Status(): nat {
      match this
      case ProgressNoCourse => 400
      case ProgressNotEnrolled => 404
      case CourseProgress(_, _) => 200
    }
  }

  // ---- the upsert ----

  function Pick<T>(given: Option<T>, current: Option<T>): Option<T> {
    if given.Some? then given else current
  }

  /** The UPDATE branch: every column COALESCEd, the wallet and
      registration date untouched, `updated_at` set. */
  function UpdateProfile(p: Profile, f: ProfileFields, now: int): (r: Profile)
    ensures Coalesced(p.firstName, f.firstName, r.firstName) && Coalesced(p.lastName, f.lastName, r.lastName)
    ensures Coalesced(p.bio, f.bio, r.bio) && Coalesced(p.profileImage, f.profileImage, r.profileImage)
    ensures Coalesced(p.address, f.address, r.address) && Coalesced(p.phone, f.phone, r.phone)
    ensures Coalesced(p.dateOfBirth, f.dateOfBirth, r.dateOfBirth)
    ensures Coalesced(p.departmentId, f.departmentId, r.departmentId) && Coalesced(p.level, f.level, r.level)
    ensures r.walletAddress == p.walletAddress && r.registeredAt == p.registeredAt
    ensures r.updatedAt == Some(now)
  {
    Profile(Pick(f.firstName, p.firstName), Pick(f.lastName, p.lastName), Pick(f.bio, p.bio),
            Pick(f.profileImage, p.profileImage), Pick(f.address, p.address), Pick(f.phone, p.phone),
            Pick(f.dateOfBirth, p.dateOfBirth), Pick(f.departmentId, p.departmentId), Pick(f.level, p.level),
            p.walletAddress, p.registeredAt, Some(now))
  }

  /** The INSERT branch: the given values, NULL for the omitted ones. */
  function NewProfile(f: ProfileFields): (r: Profile)
    ensures r.firstName == f.firstName && r.lastName == f.lastName && r.bio == f.bio
    ensures r.profileImage == f.profileImage && r.address == f.address && r.phone == f.phone
    ensures r.dateOfBirth == f.dateOfBirth && r.departmentId == f.departmentId && r.level == f.level
    ensures r.walletAddress == None && r.registeredAt == None && r.updatedAt == None
  {
    Profile(f.firstName, f.lastName, f.bio, f.profileImage, f.address, f.phone,
            f.dateOfBirth, f.departmentId, f.level, None, None, None)
  }

  /** Sending the same body twice is the same as sending it once. */
  lemma UpdateProfileIdempotent(p: Profile, f: ProfileFields, t1: int, t2: int)
    ensures UpdateProfile(UpdateProfile(p, f, t1), f, t2) == UpdateProfile(p, f, t2)
  {}

  /** An all-null body changes nothing but the update time. */
  lemma EmptyBodyKeepsProfile(p: Profile, now: int)
    ensures UpdateProfile(p, ProfileFields(None, None, None, None, None, None, None, None, None), now)
      == p.(updatedAt := Some(now))
  {}

  /** Updating the profile just inserted from the same body gives that
      profile back, stamped. */
  lemma UpdateAfterInsert(f: ProfileFields, now: int)
    ensures UpdateProfile(NewProfile(f), f, now) == NewProfile(f).(updatedAt := Some(now))
  {}

  // ---- getCourseProgress ----

  predicate RowFor(row: SectionRow, user: UserId, course: CourseId, section: SectionId) {
    row.user == user && row.course == course && row.section == section
  }

  /** `rows.find(p => p.section_id === section.id)` over the rows of this
      user and course: the first matching row's flag. */
  function FindSectionRow(rows: seq<SectionRow>, user: UserId, course: CourseId, section: SectionId)
    : (r: Option<bool>)
    ensures r.None? <==> forall i :: 0 <= i < |rows| ==> !RowFor(rows[i], user, course, section)
    ensures r.Some? ==> exists i :: (0 <= i < |rows| && RowFor(rows[i], user, course, section)
      && rows[i].completed == r.value
      && forall j :: 0 <= j < i ==> !RowFor(rows[j], user, course, section))
  {
    if rows == [] then None
    else if RowFor(rows[0], user, course, section) then Some(rows[0].completed)
    else
      var rest := rows[1..];
      var r := FindSectionRow(rest, user, course, section);
      assert forall i :: 1 <= i < |rows| ==> rows[i] == rest[i - 1];
      if r.Some? then
        ghost var i :| 0 <= i < |rest| && RowFor(rest[i], user, course, section) && rest[i].completed == r.value
          && forall j :: 0 <= j < i ==> !RowFor(rest[j], user, course, section);
        assert RowFor(rows[i + 1], user, course, section) && rows[i + 1].completed == r.value;
        r
      else
        r
  }

  /** `completed: progress ? progress.completed : false`, per section in order. */
  function SectionFlags(sections: seq<SectionId>, rows: seq<SectionRow>, user: UserId, course: CourseId)
    : (flags: seq<bool>)
    ensures |flags| == |sections|
    ensures forall i :: 0 <= i < |sections| ==>
      (flags[i] <==> FindSectionRow(rows, user, course, sections[i]) == Some(true))
  {
    seq(|sections|, i requires 0 <= i < |sections| => FindSectionRow(rows, user, course, sections[i]) == Some(true))
  }

  /** A section without any progress row counts as not completed. */
  lemma MissingRowIsIncomplete(sections: seq<SectionId>, rows: seq<SectionRow>, user: UserId, course: CourseId, i: nat)
    requires i < |sections|
    requires forall k :: 0 <= k < |rows| ==> rows[k].section != sections[i]
    ensures !SectionFlags(sections, rows, user, course)[i]
  {}

  /** `sections.filter(s => s.completed).length` */
  function CountTrue(flags: seq<bool>): (n: nat)
    ensures n == multiset(flags)[true]
    ensures n <= |flags|
    ensures n == |flags| <==> forall i :: 0 <= i < |flags| ==> flags[i]
    ensures n == 0 <==> forall i :: 0 <= i < |flags| ==> !flags[i]
  {
    if flags == [] then 0
    else
      var rest := CountTrue(flags[1..]);
      assert forall i :: 1 <= i < |flags| ==> flags[i] == flags[1..][i - 1];
      assert flags == [flags[0]] + flags[1..];
      (if flags[0] then 1 else 0) + rest
  }

  class StudentRecords {
    var users: seq<StudentUser>
    var profiles: map<UserId, Profile>
    var education: seq<EducationEntry>
    var enrollments: set<(UserId, CourseId)>
    var courseSections: map<CourseId, seq<SectionId>>
    var sectionProgress: seq<SectionRow>

    /** No two users share a username or an email: `registerStudent`
        refuses either clash. Every profile belongs to an existing user:
        profiles are keyed by the signed-in user's id (`req.user.id`) or
        by the user `registerStudent` just created. */
    ghost predicate Valid()
      reads this
    {
      && (forall i, j :: 0 <= i < j < |users| ==>
            users[i].username != users[j].username && users[i].email != users[j].email)
      && (forall u :: u in profiles ==> u < |users|)
    }

    constructor ()
      ensures Valid()
      ensures users == [] && profiles == map[] && education == []
      ensures enrollments == {} && courseSections == map[] && sectionProgress == []
    {
      users, profiles, education := [], map[], [];
      enrollments, courseSections, sectionProgress := {}, map[], [];
    }

    /** `updateStudentProfile`: insert when the user has no profile,
        otherwise COALESCE the given fields into it. */
    method UpdateStudentProfile(user: UserId, fields: ProfileFields, now: int) returns (profile: Profile)
      requires Valid()
      requires user < |users|
      modifies this
      ensures Valid()
      ensures user !in old(profiles) ==> profile == NewProfile(fields)
      ensures user in old(profiles) ==> profile == UpdateProfile(old(profiles)[user], fields, now)
      ensures profiles == old(profiles)[user := profile]
      ensures users == old(users) && education == old(education) && enrollments == old(enrollments)
      ensures courseSections == old(courseSections) && sectionProgress == old(sectionProgress)
    {
      if user !in profiles {
        profile := NewProfile(fields);
      } else {
        profile := UpdateProfile(profiles[user], fields, now);
      }
      profiles := profiles[user := profile];
    }

    /** `addEducationHistory`: 400 for a missing institution, degree, field
        of study or start date, then 404 without a profile; otherwise one
        entry appended. */
    method AddEducationHistory(user: UserId, input: EducationInput) returns (result: EducationResult)
      requires Valid()
      requires user < |users|
      modifies this
      ensures Valid()
      ensures result == EducationMissingFields <==>
        !Present(input.institution) || !Present(input.degree) || !Present(input.fieldOfStudy) || input.startDate.None?
      ensures result == EducationNoProfile <==> !(result == EducationMissingFields) && user !in old(profiles)
      ensures !result.EducationAdded? ==> education == old(education)
      ensures result.EducationAdded? ==>
        result.entry == EducationEntry(user, input) && education == old(education) + [result.entry]
      ensures users == old(users) && profiles == old(profiles) && enrollments == old(enrollments)
      ensures courseSections == old(courseSections) && sectionProgress == old(sectionProgress)
    {
      if !Present(input.institution) || !Present(input.degree) || !Present(input.fieldOfStudy) || input.startDate.None? {
        return EducationMissingFields;
      }
      if user !in profiles {
        return EducationNoProfile;
      }
      var entry := EducationEntry(user, input);
      education := education + [entry];
      result := EducationAdded(entry);
    }

    /** Some existing user has this username or this email. */
    predicate Taken(username: string, email: string)
      reads this
    {
      exists i :: 0 <= i < |users| && (users[i].username == username || users[i].email == email)
    }

    /** `registerStudent`: 400 for a missing username, email or password,
        409 when either is taken; otherwise one user with role `student`
        and one linked profile. The wallet address is stored as given. */
    method RegisterStudent(username: Option<string>, email: Option<string>, password: Option<string>,
                           firstName: Option<string>, lastName: Option<string>, departmentId: Option<nat>,
                           wallet: Option<string>, now: int)
      returns (result: RegisterResult)
      requires Valid()
      modifies this
      ensures Valid()
      ensures result == RegisterMissingFields <==> !Present(username) || !Present(email) || !Present(password)
      ensures result == RegisterTaken <==>
        Present(username) && Present(email) && Present(password) && old(Taken(username.value, email.value))
      ensures !result.RegisterCreated? ==> unchanged(this)
      ensures result.RegisterCreated? ==>
        && result.id == |old(users)|
        && users == old(users) + [StudentUser(username.value, email.value, HashPassword(password.value), "student")]
        && profiles == old(profiles)[result.id := Profile(firstName, lastName, None, None, None, None, None,
                                                          departmentId, None, wallet, Some(now), None)]
      ensures education == old(education) && enrollments == old(enrollments)
      ensures courseSections == old(courseSections) && sectionProgress == old(sectionProgress)
    {
      if !Present(username) || !Present(email) || !Present(password) {
        return RegisterMissingFields;
      }
      if Taken(username.value, email.value) {
        return RegisterTaken;
      }
      var id := |users|;
      users := users + [StudentUser(username.value, email.value, HashPassword(password.value), "student")];
      profiles := profiles[id := Profile(firstName, lastName, None, None, None, None, None,
                                         departmentId, None, wallet, Some(now), None)];
      result := RegisterCreated(id);
    }

    /** Some profile other than `user`'s holds exactly this address. */
    predicate HeldByOther(user: UserId, wallet: string)
      reads this
    {
      exists u :: u in profiles && u != user && profiles[u].walletAddress == Some(wallet)
    }

    /** `connectWallet`: 400 for a missing or malformed address, 409 when
        another profile holds it, 404 without a profile of one's own;
        otherwise only the caller's profile gets the address. */
    method ConnectWallet(user: UserId, wallet: Option<string>, now: int) returns (result: WalletResult)
      requires Valid()
      requires user < |users|
      modifies this
      ensures Valid()
      ensures result == WalletMissing <==> !Present(wallet)
      ensures result == WalletMalformed <==> Present(wallet) && !IsEthAddress(wallet.value)
      ensures result == WalletTaken <==>
        Present(wallet) && IsEthAddress(wallet.value) && old(HeldByOther(user, wallet.value))
      ensures result == WalletNoProfile <==>
        Present(wallet) && IsEthAddress(wallet.value) && !old(HeldByOther(user, wallet.value))
        && user !in old(profiles)
      ensures !result.WalletConnected? ==> unchanged(this)
      ensures result.WalletConnected? ==>
        && result.profile == old(profiles)[user].(walletAddress := wallet, updatedAt := Some(now))
        && profiles == old(profiles)[user := result.profile]
        && !HeldByOther(user, wallet.value)
      ensures users == old(users) && education == old(education) && enrollments == old(enrollments)
      ensures courseSections == old(courseSections) && sectionProgress == old(sectionProgress)
    {
      if !Present(wallet) {
        return WalletMissing;
      }
      if !IsEthAddress(wallet.value) {
        return WalletMalformed;
      }
      if HeldByOther(user, wallet.value) {
        return WalletTaken;
      }
      if user !in profiles {
        return WalletNoProfile;
      }
      var updated := profiles[user].(walletAddress := wallet, updatedAt := Some(now));
      profiles := profiles[user := updated];
      result := WalletConnected(updated);
    }

    /** `getCourseProgress`: 400 without a course id, 404 unless enrolled;
        otherwise each section's flag, in order, and the rounded share of
        completed sections, 0 when there are none. */
    method GetCourseProgress(user: UserId, course: Option<CourseId>) returns (result: ProgressResult)
      requires Valid()
      requires user < |users|
      ensures result == ProgressNoCourse <==> course.None?
      ensures result == ProgressNotEnrolled <==> course.Some? && (user, course.value) !in enrollments
      ensures result.CourseProgress? ==>
        var sections := if course.value in courseSections then courseSections[course.value] else [];
        && result.sections == SectionFlags(sections, sectionProgress, user, course.value)
        && result.percentage == ShownPercentage(multiset(result.sections)[true], |sections|)
        && result.percentage <= 100
        && (result.percentage == 100 <== (|sections| > 0 && forall i :: 0 <= i < |sections| ==> result.sections[i]))
    {
      if course.None? {
        return ProgressNoCourse;
      }
      var c := course.value;
      if (user, c) !in enrollments {
        return ProgressNotEnrolled;
      }
      var sections := if c in courseSections then courseSections[c] else [];
      var flags := SectionFlags(sections, sectionProgress, user, c);
      var done := CountTrue(flags);
      if |flags| > 0 { PercentageRange(done, |flags|); }
      result := CourseProgress(flags, ShownPercentage(done, |flags|));
    }
  }

  /** Re-connecting the address one already holds succeeds. */
  method ReconnectOwnWallet(records: StudentRecords, user: UserId, wallet: string, now: int)
    returns (result: WalletResult)
    requires records.Valid() && IsEthAddress(wallet) && user in records.profiles
    requires records.profiles[user].walletAddress == Some(wallet)
    requires forall u :: u in records.profiles && u != user ==> records.profiles[u].walletAddress != Some(wallet)
    modifies records
    ensures result.WalletConnected?
    ensures user in records.profiles && records.profiles[user].walletAddress == Some(wallet)
  {
    result := records.ConnectWallet(user, Some(wallet), now);
  }
}
