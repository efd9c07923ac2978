# Survey submission schema — a verified model

This project models `models.py`, a small validation and redaction layer for survey submissions. It is written in Dafny.

- **`SurveySubmission`**: building one validates the fields.
  - The name has 1 to 100 characters.
  - The address passes the email check.
  - The age is in 13..120.
  - Consent is exactly `true`.
  - The rating is in 1..5.
  - Comments are absent or at most 1000 characters.
  - Present comments are then stripped of surrounding whitespace.
- **`to_storable`**: produces the storage form of a submission. `email` is replaced by the hex SHA-256 digest of the address. `age` is replaced by the digest of its decimal text.
- **`StoredSurveyRecord`**: a submission plus `received_at` and `ip`.
  - Its `to_storable` applies the same two replacements.
  - When `submission_id` is empty, it synthesises one. The new id is the digest of the unredacted address followed by the `%Y%m%d%H` rendering of the current UTC clock.

Modules:

- `Wrappers` (`wrappers.dfy`): `Option` and `Result`.
- `Text` (`text.dfy`): the string operations the schema uses.
  - Python's `str.strip()`, with the `str.isspace()` whitespace set.
  - `str(n)` for integers.
  - The two-digit zero padding that `strftime` uses.
- `Clock` (`clock.dfy`): `datetime` values and the hour key.
- `Models` (`models.py`'s two classes, in `models.dfy`): validation, the two validators and both `to_storable` methods.

The code is pure: every write in `to_storable` goes into a fresh copy made by `self.dict()`. So the model consists of functions and lemmas.

The model works with values whose types are already settled:

- The email check is a parameter, `isEmail: string -> bool`.
- The digest is a parameter, `hash: string -> string`. It covers both the UTF-8 encoding and the hex SHA-256.
- The clock reading is a parameter, `now: DateTime`.

Nothing is assumed about `isEmail` or `hash` beyond their being functions. Determinism therefore follows, but injectivity does not.

The storage form is a record with one field per key of the returned dict. For a stored record, this is the submission's entries plus `receivedAt` and `ip`. A refusal lists every violated constraint in the order the fields are declared, as the validation error reports all failing fields.

Where the description of the system and the code differ, the model follows the code:

- **The comment limit is checked on the text as given.** The `comments` validator runs after the field's `max_length` check. So a comment of more than 1000 characters is refused even if stripping would shorten it. `ConstructedCommentsBounded` proves that the stored comment still obeys the limit.
- **The synthesised id uses the clock, not `received_at`.** The clock is read when `to_storable` runs (models.py:46). `ReceivedAtOnlyStored` proves that `received_at` has no influence on the id.
- **`submission_id` is a required `str`.** It can be empty but never absent. So the `not data.get(...)` test is true exactly when the id is empty.

## Model

| member | source | states |
|---|---|---|
| Text.StripLeading | models.py:18 | the result is a suffix of the input, everything dropped is whitespace, and it does not start with whitespace |
| Text.StripTrailing | models.py:18 | the result is a prefix of the input, everything dropped is whitespace, and it does not end with whitespace |
| Text.Strip | models.py:18 | `str.strip()`: the result is no longer than the input, has no whitespace at either edge, and is a contiguous slice with only whitespace around it |
| Text.StripUnique | models.py:18 | any slice with only whitespace around it and none at its edges equals `Strip` of the input, so the properties above determine `Strip` completely |
| Text.StripFixedPoint | models.py:18 | a string without edge whitespace is left unchanged by `Strip` |
| Text.StripIdempotent | models.py:18 | stripping twice equals stripping once |
| Text.Decimal | models.py:30 | `str(n)` of a non-negative integer is a non-empty digit string with no leading zero (unless n is 0) |
| Text.DecimalRoundTrip | models.py:30 | reading back `str(n)` as a decimal number gives n |
| Text.DecimalLength | models.py:30 | a number with k digits renders as exactly k characters |
| Text.IntToString | models.py:30 | `str(i)` of any integer: digits reading back as i, with a leading minus sign exactly when i is negative |
| Text.Pad2 | models.py:46 | the `%m`/`%d`/`%H` rendering of n < 100 is exactly two digits that read back as n |
| Clock.HourKey | models.py:46 | `strftime("%Y%m%d%H")` is all digits, and ten of them for years 1000 and later |
| Clock.HourKeyFields | models.py:46 | for years 1000–9999 the key's characters 0–3, 4–5, 6–7 and 8–9 read back as year, month, day and hour |
| Clock.HourKeyDeterministic | models.py:46-48 | two clock readings in the same UTC hour give the same key, whatever their minutes, seconds and microseconds |
| Clock.HourKeyInjective | models.py:46 | for four-digit years, equal keys mean the same UTC year, month, day and hour |
| Clock.HourKeyExample | models.py:46 | 2024-03-01 10:15 UTC renders as "2024030110" |
| Models.StripComments | models.py:16-18 | an absent comment stays absent; a present one becomes a no-longer trimmed slice without edge whitespace |
| Models.StripCommentsIdempotent | models.py:16-18 | applying the comments validator twice equals applying it once |
| Models.StripCommentsExample | models.py:16-18 | "  hello  " is stored as "hello" |
| Models.MustConsent | models.py:20-24 | the consent validator accepts exactly `true`; anything else gives the consent error |
| Models.Violations | models.py:7-24 | the reported violations are exactly the violated field constraints, and there are none exactly when every constraint holds |
| Models.Construct | models.py:6-24 | an instance exists exactly when every constraint holds; it is `Valid` and has consent; only the comments differ from the input, and those are stripped; a refusal is non-empty and names exactly the violated constraints |
| Models.ViolationRejects | models.py:7-24 | violating any single constraint refuses the input, and the refusal names that constraint |
| Models.ConsentFalseRejected | models.py:20-24 | with consent false there is no instance, and the refusal carries the consent error |
| Models.ConstructedCommentsBounded | models.py:12-18 | a built instance's comment, when present, has at most 1000 characters and is already stripped |
| Models.ConstructIdempotent | models.py:6-24 | building again from a built instance gives back the same instance |
| Models.ToStorable | models.py:26-31 | `email` holds the digest of the address, `age` the digest of `str(age)`, and name, consent, rating, comments, user_agent and submission_id are copied unchanged |
| Models.ToStorableSeesOnlyDigests | models.py:29-30 | submissions that agree on every other field, and whose addresses and ages digest alike, are stored alike |
| Models.AgeDigestInput | models.py:30 | for ages 13–120 the digested text has two or three digits, no leading zero, and reads back as the age |
| Models.ConstructRecord | models.py:34-36 | a stored record is built exactly when its submission fields pass validation, and it keeps `received_at` and `ip` as given |
| Models.RecordToStorable | models.py:37-50 | the email and age digests as in the base form; `received_at` and `ip` unchanged; a non-empty submission_id is kept; an empty one becomes the digest of the unredacted email followed by the hour key of the clock reading |
| Models.RecordAgreesWithSubmission | models.py:26-48 | with a non-empty id the record's entries equal the base `to_storable`; with an empty id they differ from it only in submission_id |
| Models.SynthesizedIdDeterministic | models.py:44-48 | two records from the same address without an id, stored in the same UTC hour, get the same synthesised id |
| Models.ReceivedAtOnlyStored | models.py:35-48 | changing `received_at` changes only the stored `received_at`; the synthesised id does not depend on it |
| Models.SynthesizedIdExample | models.py:44-48 | address "a@b.com", no id, clock at 2024-03-01 10:15 UTC: the id is the digest of "a@b.com2024030110" |

## Left out

- Pydantic's machinery is not modelled: type coercion before validation (for instance, strings turned into `bool` before the consent check), `.dict()` internals and error-message text. The model's inputs already have their declared types, and an error is a list of `Violation` values.
- The `EmailStr` syntax check belongs to an external library. It is the parameter `isEmail`. Any rewriting of the address by that library, such as lower-casing the domain, is not modelled: the address is stored as given.
- SHA-256 and hex encoding are the parameter `hash`. Without assuming injectivity, two things cannot be proved. One is that the stored form never contains the literal address or age. The other is that a record stored in the next UTC hour gets a different id. Only the underlying fact about keys is proved, by `Clock.HourKeyInjective`.
- The UTF-8 encoding before hashing is folded into `hash`. Lengths count Unicode scalar values, which agrees with Python's `len` except on lone surrogates.
- `datetime.utcnow()` is a clock read. It is the parameter `now`, which must be a valid `datetime`.
- `received_at` and `ip` are carried through without interpretation. `received_at` is not checked to be a valid date.
- The dict returned by `to_storable` is modelled as a record with one field per key. Key order and the identity of the dict object are not modelled.
- Clock.HourKey: `%Y` for years below 1000 depends on the platform. The model renders such years without padding, as glibc does. The length and layout facts are proved only for years 1000–9999.
- Lines 41-42 repeat lines 29-30. The model shares one definition, `ToStorable`, between the two entities.
