# Referral registry — a verified Dafny model

The service in `server.js` keeps an in-memory referral registry. It is a list of
users and an id counter. Each user has an id, a name, an email, a referral code,
points and a referral count. Three request handlers work on the registry:

- **register** validates the name, the email and an optional referral code. The
  first failed check wins. On success it allocates an id, generates a referral
  code that is not already in use, and appends the user. If the request named a
  referrer, that referrer gains 10 points and one referral.
- **lookup** finds the user holding a referral code. The code is matched after
  trimming it and upper-casing it.
- **list** returns every user.

The model has three modules:

- `Text` (`text.dfy`) covers the JavaScript string primitives the handlers use:
  `trim`, `toLowerCase` and `toUpperCase`, over ASCII.
- `Email` (`email.dfy`) is `isValidEmail`. The regular expression
  `^[^\s@]+@[^\s@]+\.[^\s@]+$` is written as a character predicate. It is proved
  equal to a flat description by positions.
- `Referral` (`registry.dfy`) holds the user record, the searches, and the
  validation sequence. It also holds a pure `RegisterStep` that describes one
  registration, the registry invariant with its preservation lemmas, and the
  class `Registry`. The class has the fields `users` and `nextId` and one method
  per handler, plus the code generator.

The registry invariant says four things:

- every user has `points == 10 * referrals`;
- every referral code has at most six upper-case base-36 characters;
- ids lie below `nextId` and increase in insertion order;
- emails are unique ignoring case, and referral codes are unique.

The sample data satisfies the invariant, and every registration preserves it.
`Registry.Register` is proved to produce exactly the outcome and the new state
that `RegisterStep` describes. The lemmas state the handler's promises about
`RegisterStep`.

The random source is a parameter. `Math.random().toString(36).substring(2, 8)`
becomes a stream `random` of raw draws. Each draw has at most six characters
from `[0-9a-z]`. The generator upper-cases draws until one is not a code in
use. This stream is the only nondeterminism in the model.

The sample codes (server.js:16, 24, 32) all have six characters. But
`substring(2, 8)` of a base-36 fraction can give fewer, so the model only asserts
"at most six". The lemmas about typing a code in another case therefore require
a non-empty code.

## Model

| member | source | states |
|---|---|---|
| Text.ToLower | server.js:132 | `toLowerCase` keeps the length, leaves no upper-case letter, and agrees with the input letter by letter up to case |
| Text.ToUpper | server.js:117 | `toUpperCase` keeps the length, leaves no lower-case letter, and agrees with the input letter by letter up to case |
| Text.UpperKeepsTight | server.js:183 | upper-casing a string with no white space at its ends puts none there |
| Text.Trim | server.js:80 | the trimmed string has no white space at either end, and it is empty exactly when the input is all white space |
| Text.TrimPadded | server.js:175 | trimming a string padded with white space on both sides gives back exactly the inner string, if that string has no white space at its ends |
| Text.TrimTight | server.js:94 | a string with no white space at either end is its own trim |
| Text.TrimIdempotent | server.js:131 | trimming twice is the same as trimming once, so the stored name is already trimmed |
| Text.LowerKeepsClasses | server.js:132 | lower-casing keeps the length and keeps white space, '@' and '.' at every position |
| Text.LowerIdempotent | server.js:103 | lower-casing an already lower-cased string changes nothing |
| Text.UpperOfLower | server.js:183 | a string with no lower-case letters comes back unchanged after lower-casing and then upper-casing |
| Email.IsValidEmail | server.js:50-53 | the regular expression as a predicate: a non-empty run of characters that are neither white space nor '@', then '@', then such a run with a '.' strictly inside; an accepted string has at least five characters, contains '@', and starts and ends with such a character |
| Email.ValidEmailIff | server.js:50-53 | the regular expression accepts a string exactly when it has one '@' that is not first, no white space, no other '@', and a '.' at least one character after the '@' and before the end |
| Email.ValidEmailLower | server.js:94 | an address is valid exactly when its lower-cased form is valid |
| Email.ValidEmailTight | server.js:94 | a valid address has no white space at either end |
| Referral.FindIndex | server.js:102-104 | `find` returns the first element that satisfies the test, and finds nothing exactly when no element does |
| Referral.HasCode | server.js:45 | `users.some` on codes: true exactly when `find` with the same test finds a user |
| Referral.NormalizeCode | server.js:117 | the typed code trimmed and upper-cased: no longer than the input, no white space at either end, no lower-case letter, and empty exactly when the input is blank |
| Referral.FindByCode | server.js:116-118 | the match is exactly the user whose code equals the trimmed, upper-cased input, and it is absent exactly when no user holds that code |
| Referral.SeedUsers | server.js:11-36 | three sample users with ids 1, 2 and 3, each holding ten points per referral |
| Referral.SeedInvariant | server.js:11-38 | the three sample users with counter 4 satisfy the registry invariant, including points == 10 * referrals |
| Referral.AppendKeepsInvariant | server.js:138 | appending a well-formed user with a fresh id, email and code keeps the invariant, with the counter moved past the new id |
| Referral.Validate | server.js:80-126 | each error holds exactly when every earlier check passes and its own check fails: blank name, then blank email, then invalid email, then email already registered ignoring case, then a referral code that matches no user; success carries the referrer's index exactly when a non-blank code was given |
| Referral.Credit | server.js:141-144 | the referrer gains 10 points and one referral, and nothing else about it changes |
| Referral.Enroll | server.js:138-144 | the new user is the last element, only the referrer changes among earlier users, and the referrer is credited |
| Referral.RegisterStep | server.js:77-159 | a failure is the validation's verdict and leaves users and counter unchanged; a success creates a user with the old counter as id, the trimmed name, the trimmed lower-cased email, the generated code and zero points, appends it, credits the referrer, advances the counter by one, and reports the referrer's name with 10 points awarded |
| Referral.NewUserNormalized | server.js:129-136 | a newly created user has a non-empty trimmed name and a lower-cased email that is a valid address |
| Referral.CreditKeepsInvariant | server.js:141-144 | crediting any one user keeps the invariant, including points == 10 * referrals |
| Referral.EnrollKeepsInvariant | server.js:129-144 | enrolling a user with the counter as id, a new email and a new code keeps the invariant, with the counter advanced |
| Referral.RegisterPreservesInvariant | server.js:77-144 | whatever the request, registration keeps the invariant, provided the generated code is not already in use |
| Referral.DuplicateEmailRejected | server.js:101-111 | after a successful registration, another one with the same email up to case and surrounding white space fails as already registered |
| Referral.CodeIsUpper | server.js:117 | a referral code has no lower-case letter, so it is its own upper-cased form: typing it exactly as issued is one way of typing it |
| Referral.NormalizeTypedCode | server.js:115-117 | a code typed in any mix of cases (any string whose upper-cased form is the code) with surrounding white space is non-blank and normalises back to the code |
| Referral.ReferralCodeNormalized | server.js:113-126 | a registration that passes the other checks and cites a user's code, typed in any mix of cases and with surrounding white space, picks exactly that user as referrer |
| Referral.CodeNamesOneUser | server.js:45 | under the invariant, two users with the same code are the same user |
| Referral.FindByReferralCode | server.js:175-191 | a blank code gives the code-required error, a non-blank code that matches no user gives not-found, and a success is a registered user holding the normalised code |
| Referral.LookupFindsEveryUser | server.js:182-196 | every user with a non-empty code is found by that code, typed in any mix of cases and with surrounding white space |
| Referral.FirstFreshDraw | server.js:43-45 | the position where the retry loop stops: the first draw whose upper-cased form is not in use, with every earlier draw in use |
| Referral.DrawIsCode | server.js:44 | an upper-cased raw draw has the shape of a referral code |
| Referral.Registry.constructor | server.js:11-38 | the registry starts with the three sample users and counter 4, and satisfies the invariant |
| Referral.Registry.ListUsers | server.js:60-64 | returns the whole user list in insertion order, which is ascending id order, and its length |
| Referral.Registry.Lookup | server.js:173-191 | returns the lookup handler's verdict on the current users and changes nothing |
| Referral.Registry.GenerateReferralCode | server.js:41-47 | the loop returns a code of the right shape that no user holds, namely the first fresh draw upper-cased |
| Referral.Registry.Register | server.js:77-159 | keeps the invariant; a failure leaves users and counter unchanged; the outcome and new state are exactly RegisterStep's, with the code the generator returns |

## Left out

- Express plumbing is not modelled: app setup, static files, routing, the HTTP status codes, the JSON envelopes, `console` logging and `app.listen`. Outcomes are a `Result` with one error constructor per message. The message text is only in a comment. The success message string is not modelled; its parts (the user and the referrer's name with the points awarded) are.
- Non-string request fields are not modelled: the `typeof` checks and the `500` responses that non-string bodies trigger. `name` and `email` are strings, and `referralCode` is an optional string.
- `trim`, `toLowerCase`, `toUpperCase` and the class `\s` are modelled over ASCII only: space and characters 9–13 are white space, and case mapping covers A–Z. Unicode white space and case mapping are not modelled.
- `Math.random` is floating point and nondeterministic. It becomes the stream `random` of raw draws.
- Referral.Registry.GenerateReferralCode: requires that some draw of the stream is fresh, because the source's retry loop has no termination argument.
- Referral.Registry.Register: requires a well-shaped random stream with a fresh draw, even on requests that fail before a code is drawn.
- Referral.RegisterPreservesInvariant: the invariant does not include "stored emails are valid and lower-cased" or "stored names are trimmed". These hold for every user that registration creates (Referral.NewUserNormalized), but they are not carried as part of the registry invariant.
- Users are values, not shared objects. Every handler serialises the users it returns into the response straight away, so a response is a snapshot. No caller keeps a reference that a later reward could change, and modelling users as values loses nothing.
- `id`, `nextId`, `points` and `referrals` are JavaScript numbers, exact only up to 2^53. The model uses unbounded `int` and `nat`, so it does not model the loss of precision that `nextId++` or `points += 10` would meet past that bound.
- Concurrency is not modelled, since each handler runs to completion on a single thread.
