/** The in-memory referral registry of the Zynta referral service: the user
    list and id counter, registration with referral rewards, lookup by
    referral code, and listing. */
module Referral {
  import opened Text
  import opened Email

  datatype Option<T> = None | Some(value: T)
  datatype Result<T, E> = Success(value: T) | Failure(error: E)

  /** Points a referrer earns for each registration that cites its code. */
  const ReferralReward: nat := 10

  datatype User = User(
    id: int,
    name: string,
    email: string,
    referralCode: string,
    points: nat,
    referrals: nat)

  /** Registration failures, in the order they are checked. */
  datatype RegisterError =
    | NameRequired            // "Name is required and must be a non-empty string"
    | EmailRequired           // "Email is required and must be a non-empty string"
    | InvalidEmail            // "Please provide a valid email address"
    | EmailAlreadyRegistered  // "Email already registered"
    | InvalidReferralCode     // "Invalid referral code"

  /** Lookup failures. */
  datatype LookupError =
    | CodeRequired            // "Referral code is required"
    | UserNotFound            // "User not found with this referral code"

  /** The referrer part of a successful registration's answer. */
  datatype Referrer = Referrer(name: string, pointsAwarded: nat)

  /** A successful registration: the new user, and the referrer if one was cited. */
  datatype Registration = Registration(user: User, referrer: Option<Referrer>)

  // ---------------------------------------------------------------------------
  // Searching the user list (Array.prototype.find / some)

  /** The first index whose element satisfies `p`, as `find` returns the first match. */
  function FindIndex<T>(s: seq<T>, p: T -> bool): (r: Option<nat>)
    ensures r.Some? ==> r.value < |s| && p(s[r.value])
    ensures r.Some? ==> forall j :: 0 <= j < r.value ==> !p(s[j])
    ensures r.None? <==> forall j :: 0 <= j < |s| ==> !p(s[j])
  {
    if |s| == 0 then None
    else if p(s[0]) then Some(0)
    else match FindIndex(s[1..], p)
      case None => None
      case Some(i) => Some(i + 1)
  }

  /** `users.some(...)` on codes: some user holds `code` exactly, which is
      when `find` with the same test finds a user. */
  predicate HasCode(users: seq<User>, code: string)
    ensures HasCode(users, code) <==> FindIndex(users, (u: User) => u.referralCode == code).Some?
  {
    exists i :: 0 <= i < |users| && users[i].referralCode == code
  }

  /** Some user's email equals `email` ignoring case. */
  predicate HasEmail(users: seq<User>, email: string) {
    exists i :: 0 <= i < |users| && ToLower(users[i].email) == ToLower(email)
  }

  /** A referral code as typed, normalised the way both handlers compare it. */
  function NormalizeCode(code: string): (r: string)
    ensures |r| <= |code| && Tight(r)
    ensures forall k :: 0 <= k < |r| ==> !('a' <= r[k] <= 'z')
    ensures r == [] <==> IsBlank(code)
  {
    UpperKeepsTight(Trim(code));
    ToUpper(Trim(code))
  }

  /** The user whose code equals the normalised `code`, if any. */
  function FindByCode(users: seq<User>, code: string): (r: Option<nat>)
    ensures r.None? <==> !HasCode(users, NormalizeCode(code))
    ensures r.Some? ==> r.value < |users| && users[r.value].referralCode == NormalizeCode(code)
  {
    var wanted := NormalizeCode(code);
    FindIndex(users, (u: User) => u.referralCode == wanted)
  }

  // ---------------------------------------------------------------------------
  // Well-formed registry state

  /** A character of an upper-cased base-36 code. */
  predicate IsCodeChar(c: char) {
    '0' <= c <= '9' || 'A' <= c <= 'Z'
  }

  /** A referral code: at most six upper-case base-36 digits. */
  predicate IsCode(s: string) {
    |s| <= 6 && forall k :: 0 <= k < |s| ==> IsCodeChar(s[k])
  }

  /** A raw draw of the random generator, `Math.random().toString(36).substring(2, 8)`:
      at most six lower-case base-36 digits. */
  predicate IsDraw(s: string) {
    |s| <= 6 && forall k :: 0 <= k < |s| ==> '0' <= s[k] <= '9' || 'a' <= s[k] <= 'z'
  }

  /** A user's own invariant: a referral code of the generator's shape, and
      ten points per referral. */
  predicate WellFormed(u: User) {
    IsCode(u.referralCode) && u.points == ReferralReward * u.referrals
  }

  /** Every user is well formed and has an id below the counter. */
  predicate AllWellFormed(users: seq<User>, nextId: int) {
    forall i :: 0 <= i < |users| ==> WellFormed(users[i]) && users[i].id < nextId
  }

  /** Ids increase in insertion order, no two emails are equal ignoring case,
      and no referral code is held twice. */
  predicate Distinct(users: seq<User>) {
    forall i, j :: 0 <= i < j < |users| ==>
      && users[i].id < users[j].id
      && ToLower(users[i].email) != ToLower(users[j].email)
      && users[i].referralCode != users[j].referralCode
  }

  /** The registry invariant. */
  predicate Invariant(users: seq<User>, nextId: int) {
    AllWellFormed(users, nextId) && Distinct(users)
  }

  /** The three sample users the service starts with. */
  function SeedUsers(): (r: seq<User>)
    ensures |r| == 3
    ensures forall i :: 0 <= i < |r| ==> r[i].id == i + 1 && r[i].points == ReferralReward * r[i].referrals
  {
    [ User(1, "John Doe", "john@example.com", "ABC123", 0, 0),
      User(2, "Jane Smith", "jane@example.com", "DEF456", 10, 1),
      User(3, "Mike Johnson", "mike@example.com", "GHI789", 20, 2) ]
  }

  /** Appending a well-formed user whose id is at least the counter and whose
      email and code are new keeps the invariant, with the counter moved past
      the new id. */
  lemma AppendKeepsInvariant(users: seq<User>, nextId: int, u: User)
    requires Invariant(users, nextId) && WellFormed(u) && nextId <= u.id
    requires forall i :: 0 <= i < |users| ==>
      ToLower(users[i].email) != ToLower(u.email) && users[i].referralCode != u.referralCode
    ensures Invariant(users + [u], u.id + 1)
  {
    var t := users + [u];
    assert forall i :: 0 <= i < |users| ==> t[i] == users[i];
  }

  /** The sample data satisfies the registry invariant with counter 4. */
  lemma SeedInvariant()
    ensures Invariant(SeedUsers(), 4)
  {
    var seed := SeedUsers();
    // the lower-cased sample emails already differ in their second character
    assert ToLower(seed[0].email)[1] == 'o';
    assert ToLower(seed[1].email)[1] == 'a';
    assert ToLower(seed[2].email)[1] == 'i';
  }

  // ---------------------------------------------------------------------------
  // Registration

  /** The name and email are present and the trimmed email is well shaped. */
  predicate WellFormedRequest(name: string, email: string) {
    !IsBlank(name) && !IsBlank(email) && EmailShape(Trim(email))
  }

  /** The request passes every check that does not involve a referral code. */
  predicate Admissible(users: seq<User>, name: string, email: string) {
    WellFormedRequest(name, email) && !HasEmail(users, Trim(email))
  }

  /** A referral code is cited when it is given and not blank. */
  predicate Cites(referralCode: Option<string>) {
    referralCode.Some? && !IsBlank(referralCode.value)
  }

  /** The validation sequence of the register handler, first failure wins; on
      success, the index of the referrer if a code was cited. */
  function Validate(users: seq<User>, name: string, email: string, referralCode: Option<string>)
    : (r: Result<Option<nat>, RegisterError>)
    ensures r == Failure(NameRequired) <==> IsBlank(name)
    ensures r == Failure(EmailRequired) <==> !IsBlank(name) && IsBlank(email)
    ensures r == Failure(InvalidEmail) <==>
      !IsBlank(name) && !IsBlank(email) && !EmailShape(Trim(email))
    ensures r == Failure(EmailAlreadyRegistered) <==>
      WellFormedRequest(name, email) && HasEmail(users, Trim(email))
    ensures r == Failure(InvalidReferralCode) <==>
      Admissible(users, name, email) && Cites(referralCode) &&
      !HasCode(users, NormalizeCode(referralCode.value))
    ensures r == Success(None) <==> Admissible(users, name, email) && !Cites(referralCode)
    ensures r.Success? && r.value.Some? ==>
      Admissible(users, name, email) && Cites(referralCode) &&
      r.value.value < |users| &&
      users[r.value.value].referralCode == NormalizeCode(referralCode.value)
  {
    ValidEmailIff(Trim(email));
    var lowered := ToLower(Trim(email));
    if |Trim(name)| == 0 then Failure(NameRequired)
    else if |Trim(email)| == 0 then Failure(EmailRequired)
    else if !IsValidEmail(Trim(email)) then Failure(InvalidEmail)
    else if FindIndex(users, (u: User) => ToLower(u.email) == lowered).Some? then
      Failure(EmailAlreadyRegistered)
    else if referralCode.None? || |Trim(referralCode.value)| == 0 then Success(None)
    else match FindByCode(users, referralCode.value)
      case None => Failure(InvalidReferralCode)
      case Some(i) => Success(Some(i))
  }

  /** The referrer after its reward: ten more points and one more referral,
      nothing else changed. */
  function Credit(u: User): (r: User)
    ensures r.points == u.points + ReferralReward && r.referrals == u.referrals + 1
    ensures r.(points := u.points, referrals := u.referrals) == u
  {
    u.(points := u.points + ReferralReward, referrals := u.referrals + 1)
  }

  /** The user list after a successful registration: `user` appended at the
      end, then the referrer at index `referrer`, if any, rewarded. */
  function Enroll(users: seq<User>, user: User, referrer: Option<nat>): (r: seq<User>)
    requires referrer.Some? ==> referrer.value < |users|
    ensures |r| == |users| + 1 && r[|users|] == user
    ensures forall j :: 0 <= j < |users| && referrer != Some(j) ==> r[j] == users[j]
    ensures referrer.Some? ==> r[referrer.value] == Credit(users[referrer.value])
  {
    var appended := users + [user];
    match referrer
    case None => appended
    case Some(j) => appended[j := Credit(appended[j])]
  }

  /** Outcome and new state of one registration. */
  datatype Step = Step(result: Result<Registration, RegisterError>, users: seq<User>, nextId: int)

  /** One call of the register handler on state (`users`, `nextId`), where
      `code` is the referral code the generator hands out. */
  function RegisterStep(users: seq<User>, nextId: int, name: string, email: string,
                        referralCode: Option<string>, code: string): (s: Step)
    // every failure is the validation's verdict and leaves the state as it was
    ensures s.result.Failure? <==> Validate(users, name, email, referralCode).Failure?
    ensures s.result.Failure? ==>
      Validate(users, name, email, referralCode) == Failure(s.result.error) &&
      s.users == users && s.nextId == nextId
    // a success creates one user, with the old counter as its id and no points,
    // enrolls it, rewards the referrer and advances the counter
    ensures s.result.Success? ==>
      var u := s.result.value.user;
      var referrer := Validate(users, name, email, referralCode).value;
      && u.id == nextId && u.name == Trim(name) && u.email == ToLower(Trim(email))
      && u.referralCode == code && u.points == 0 && u.referrals == 0
      && s.users == Enroll(users, u, referrer)
      && s.nextId == nextId + 1
      && s.result.value.referrer ==
           (if referrer.Some? then Some(Referrer(users[referrer.value].name, ReferralReward)) else None)
  {
    match Validate(users, name, email, referralCode)
    case Failure(e) => Step(Failure(e), users, nextId)
    case Success(referrer) =>
      var user := User(nextId, Trim(name), ToLower(Trim(email)), code, 0, 0);
      var reward := match referrer
        case None => None
        case Some(j) => Some(Referrer(users[j].name, ReferralReward));
      Step(Success(Registration(user, reward)), Enroll(users, user, referrer), nextId + 1)
  }

  /** The user a successful registration creates has a non-empty trimmed name
      and a lower-cased email that is a valid address. */
  lemma NewUserNormalized(users: seq<User>, nextId: int, name: string, email: string,
                          referralCode: Option<string>, code: string)
    requires RegisterStep(users, nextId, name, email, referralCode, code).result.Success?
    ensures var u := RegisterStep(users, nextId, name, email, referralCode, code).result.value.user;
            && u.name != [] && Trim(u.name) == u.name
            && ToLower(u.email) == u.email && IsValidEmail(u.email)
  {
    TrimIdempotent(name);
    LowerIdempotent(Trim(email));
    ValidEmailIff(Trim(email));
    ValidEmailLower(Trim(email));
  }

  /** Rewarding a referrer keeps the invariant: ten more points with one more
      referral keeps points == 10 * referrals, and nothing else changes. */
  lemma CreditKeepsInvariant(users: seq<User>, nextId: int, j: nat)
    requires Invariant(users, nextId) && j < |users|
    ensures Invariant(users[j := Credit(users[j])], nextId)
  {
  }

  /** Enrolling a well-formed user with the counter as id, a new email and a new
      code keeps the invariant, with the counter advanced. */
  lemma EnrollKeepsInvariant(users: seq<User>, nextId: int, u: User, referrer: Option<nat>)
    requires Invariant(users, nextId) && WellFormed(u) && u.id == nextId
    requires forall i :: 0 <= i < |users| ==>
      ToLower(users[i].email) != ToLower(u.email) && users[i].referralCode != u.referralCode
    requires referrer.Some? ==> referrer.value < |users|
    ensures Invariant(Enroll(users, u, referrer), nextId + 1)
  {
    AppendKeepsInvariant(users, nextId, u);
    if referrer.Some? {
      CreditKeepsInvariant(users + [u], nextId + 1, referrer.value);
    }
  }

  /** Registration keeps the registry invariant, provided the generated code is
      a code not yet in use: in particular every user keeps
      points == 10 * referrals, and emails and codes stay unique. */
  lemma RegisterPreservesInvariant(users: seq<User>, nextId: int, name: string, email: string,
                                   referralCode: Option<string>, code: string)
    requires Invariant(users, nextId)
    requires IsCode(code) && !HasCode(users, code)
    ensures var s := RegisterStep(users, nextId, name, email, referralCode, code);
            Invariant(s.users, s.nextId)
  {
    var check := Validate(users, name, email, referralCode);
    if check.Success? {
      var u := User(nextId, Trim(name), ToLower(Trim(email)), code, 0, 0);
      LowerIdempotent(Trim(email));
      assert !HasEmail(users, Trim(email));
      assert forall i :: 0 <= i < |users| ==> ToLower(users[i].email) != ToLower(u.email);
      EnrollKeepsInvariant(users, nextId, u, check.value);
    }
  }

  /** Once an email is registered, a second registration with the same email up
      to case and surrounding white space is refused as a duplicate. */
  lemma {:induction false} DuplicateEmailRejected(users: seq<User>, nextId: int, name: string,
                                                  email: string, referralCode: Option<string>,
                                                  code: string, name2: string, email2: string,
                                                  referralCode2: Option<string>)
    requires RegisterStep(users, nextId, name, email, referralCode, code).result.Success?
    requires !IsBlank(name2) && ToLower(Trim(email2)) == ToLower(Trim(email))
    ensures var s := RegisterStep(users, nextId, name, email, referralCode, code);
            Validate(s.users, name2, email2, referralCode2) == Failure(EmailAlreadyRegistered)
  {
    var s := RegisterStep(users, nextId, name, email, referralCode, code);
    var t, t2 := Trim(email), Trim(email2);
    assert |t2| == |ToLower(t2)| == |ToLower(t)| == |t|;
    assert !IsBlank(email2);
    ValidEmailIff(t);
    ValidEmailIff(t2);
    ValidEmailLower(t);
    ValidEmailLower(t2);
    LowerIdempotent(t);
    assert ToLower(s.users[|users|].email) == ToLower(t2);
  }

  /** A referral code has no lower-case letter, so the code typed exactly as
      issued is one of the ways of typing it. */
  lemma CodeIsUpper(code: string)
    requires IsCode(code)
    ensures ToUpper(code) == code
  {
    forall k | 0 <= k < |code| ensures ToUpper(code)[k] == code[k] {
      assert IsCodeChar(code[k]);
    }
  }

  /** A code typed in any mix of cases and padded with white space
      normalises back to the code, and is not blank unless the code is empty. */
  lemma NormalizeTypedCode(code: string, typed: string, pre: string, post: string)
    requires IsCode(code) && ToUpper(typed) == code && IsBlank(pre) && IsBlank(post)
    ensures NormalizeCode(pre + typed + post) == code
    ensures code != [] ==> !IsBlank(pre + typed + post)
  {
    if typed != [] {
      // the typed ends upper-case to code characters, so they are not white space
      assert code[0] == UpperChar(typed[0]) && IsCodeChar(code[0]);
      assert code[|code| - 1] == UpperChar(typed[|typed| - 1]) && IsCodeChar(code[|code| - 1]);
    }
    TrimPadded(pre, typed, post);
  }

  /** Registration accepts a referrer's code typed in any mix of cases and
      with surrounding white space, and picks exactly that referrer. */
  lemma ReferralCodeNormalized(users: seq<User>, nextId: int, i: nat, name: string, email: string,
                               typed: string, pre: string, post: string)
    requires Invariant(users, nextId) && i < |users| && users[i].referralCode != []
    requires ToUpper(typed) == users[i].referralCode
    requires Admissible(users, name, email) && IsBlank(pre) && IsBlank(post)
    ensures Validate(users, name, email, Some(pre + typed + post)) == Success(Some(i))
  {
    NormalizeTypedCode(users[i].referralCode, typed, pre, post);
    assert HasCode(users, NormalizeCode(pre + typed + post));
    var r := Validate(users, name, email, Some(pre + typed + post));
    assert r.Success? && r.value.Some?;
    CodeNamesOneUser(users, nextId, r.value.value, i);
  }

  /** Under the invariant, a referral code names at most one user. */
  lemma CodeNamesOneUser(users: seq<User>, nextId: int, i: nat, j: nat)
    requires Invariant(users, nextId) && i < |users| && j < |users|
    requires users[i].referralCode == users[j].referralCode
    ensures i == j
  {
  }

  // ---------------------------------------------------------------------------
  // Lookup by referral code

  /** The lookup handler: a blank code is an error of its own, otherwise the
      user holding the trimmed, upper-cased code, or not found. */
  function FindByReferralCode(users: seq<User>, code: string): (r: Result<User, LookupError>)
    ensures r == Failure(CodeRequired) <==> IsBlank(code)
    ensures r == Failure(UserNotFound) <==> !IsBlank(code) && !HasCode(users, NormalizeCode(code))
    ensures r.Success? ==> r.value in users && r.value.referralCode == NormalizeCode(code)
  {
    if |Trim(code)| == 0 then Failure(CodeRequired)
    else match FindByCode(users, code)
      case None => Failure(UserNotFound)
      case Some(i) => Success(users[i])
  }

  /** Every user with a non-empty code is found by that code, typed in any mix
      of cases and with surrounding white space. */
  lemma LookupFindsEveryUser(users: seq<User>, nextId: int, i: nat, typed: string,
                             pre: string, post: string)
    requires Invariant(users, nextId) && i < |users| && users[i].referralCode != []
    requires ToUpper(typed) == users[i].referralCode && IsBlank(pre) && IsBlank(post)
    ensures FindByReferralCode(users, pre + typed + post) == Success(users[i])
  {
    NormalizeTypedCode(users[i].referralCode, typed, pre, post);
  }

  // ---------------------------------------------------------------------------
  // Referral-code generation

  /** Some draw of the stream would be accepted by the generator. */
  predicate FreshDrawAvailable(users: seq<User>, random: seq<string>) {
    exists k :: 0 <= k < |random| && !HasCode(users, ToUpper(random[k]))
  }

  /** Every entry of the stream has the shape of a raw draw. */
  predicate Draws(random: seq<string>) {
    forall k :: 0 <= k < |random| ==> IsDraw(random[k])
  }

  /** The position, from `from` on, of the first draw whose upper-cased form is
      not yet a code: where the retry loop stops. */
  function FirstFreshDraw(users: seq<User>, random: seq<string>, from: nat): (k: nat)
    requires from <= |random|
    requires exists k :: from <= k < |random| && !HasCode(users, ToUpper(random[k]))
    ensures from <= k < |random| && !HasCode(users, ToUpper(random[k]))
    ensures forall j :: from <= j < k ==> HasCode(users, ToUpper(random[j]))
    decreases |random| - from
  {
    if !HasCode(users, ToUpper(random[from])) then from
    else FirstFreshDraw(users, random, from + 1)
  }

  /** An upper-cased draw is a referral code. */
  lemma DrawIsCode(s: string)
    requires IsDraw(s)
    ensures IsCode(ToUpper(s))
  {
  }

  // ---------------------------------------------------------------------------
  // The registry object

  class Registry {
    var users: seq<User>
    var nextId: int

    ghost predicate Valid()
      reads this
    {
      Invariant(users, nextId)
    }

    /** The registry as the service starts: three sample users, counter 4. */
    constructor ()
      ensures Valid()
      ensures users == SeedUsers() && nextId == 4
    {
      users := SeedUsers();
      nextId := 4;
      SeedInvariant();
    }

    /** The list handler: all users in insertion order, which is ascending id
        order, and their count. */
    method ListUsers() returns (all: seq<User>, count: nat)
      requires Valid()
      ensures all == users && count == |users|
      ensures forall i, j :: 0 <= i < j < |all| ==> all[i].id < all[j].id
    {
      all := users;
      count := |users|;
    }

    /** The lookup handler: reads the registry and changes nothing. */
    method Lookup(code: string) returns (r: Result<User, LookupError>)
      ensures r == FindByReferralCode(users, code)
    {
      r := FindByReferralCode(users, code);
    }

    /** `generateReferralCode`: draws from the random stream until the
        upper-cased draw differs from every existing code. */
    method GenerateReferralCode(random: seq<string>) returns (code: string)
      requires Draws(random) && FreshDrawAvailable(users, random)
      ensures !HasCode(users, code) && IsCode(code)
      ensures code == ToUpper(random[FirstFreshDraw(users, random, 0)])
    {
      var i := 0;
      code := ToUpper(random[i]);
      while HasCode(users, code)
        invariant 0 <= i < |random| && code == ToUpper(random[i])
        invariant forall j :: 0 <= j < i ==> HasCode(users, ToUpper(random[j]))
        decreases |random| - i
      {
        i := i + 1;
        code := ToUpper(random[i]);
      }
      DrawIsCode(random[i]);
    }

    /** The register handler. Validation failures return before any change;
        a success takes the counter as id, generates a fresh code, appends the
        new user and then rewards the referrer. */
    method Register(name: string, email: string, referralCode: Option<string>, random: seq<string>)
      returns (r: Result<Registration, RegisterError>)
      requires Valid()
      requires Draws(random) && FreshDrawAvailable(users, random)
      modifies this
      ensures Valid()
      ensures r.Failure? ==> users == old(users) && nextId == old(nextId)
      ensures var s := RegisterStep(old(users), old(nextId), name, email, referralCode,
                                    ToUpper(random[FirstFreshDraw(old(users), random, 0)]));
              r == s.result && users == s.users && nextId == s.nextId
    {
      var check := Validate(users, name, email, referralCode);
      if check.Failure? {
        return Failure(check.error);
      }
      ghost var before := users;
      var id := nextId;
      nextId := nextId + 1;
      var code := GenerateReferralCode(random);
      var user := User(id, Trim(name), ToLower(Trim(email)), code, 0, 0);
      users := users + [user];
      var referrer: Option<Referrer> := None;
      if check.value.Some? {
        var j := check.value.value;
        users := users[j := Credit(users[j])];
        referrer := Some(Referrer(users[j].name, ReferralReward));
      }
      r := Success(Registration(user, referrer));
      RegisterPreservesInvariant(before, id, name, email, referralCode, code);
    }
  }
}
