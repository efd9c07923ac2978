/**
 * The survey schema: validation of a submission when it is built, and the
 * storage form in which the personal fields (email, age) are replaced by
 * digests, for a plain submission and for a stored record that also
 * synthesises a missing submission id.
 *
 * Two collaborators are parameters: `isEmail`, the email-address syntax
 * check, and `hash`, the hex SHA-256 digest of a string's UTF-8 bytes.
 * Nothing is assumed about either beyond being a function.
 */
module Models {
  import opened Wrappers
  import opened Text
  import opened Clock

  /** The fields of a survey submission, already of their declared types. */
  datatype Submission = Submission(
    name: string,
    email: string,
    age: int,
    consent: bool,
    rating: int,
    comments: Option<string>,
    userAgent: Option<string>,
    submissionId: string)

  /** One refused field constraint; a refusal lists every one that failed. */
  datatype Violation =
    | NameLength
    | EmailFormat
    | AgeRange
    | ConsentRequired
    | RatingRange
    | CommentsLength

  /** The field constraints, read against the values as given. */
  predicate Accepts(f: Submission, isEmail: string -> bool) {
    && 1 <= |f.name| <= 100
    && isEmail(f.email)
    && 13 <= f.age <= 120
    && f.consent
    && 1 <= f.rating <= 5
    && (f.comments.Some? ==> |f.comments.value| <= 1000)
  }

  /** `f` breaks the constraint that `v` names. */
  predicate Violates(f: Submission, isEmail: string -> bool, v: Violation) {
    match v
    case NameLength => !(1 <= |f.name| <= 100)
    case EmailFormat => !isEmail(f.email)
    case AgeRange => !(13 <= f.age <= 120)
    case ConsentRequired => !f.consent
    case RatingRange => !(1 <= f.rating <= 5)
    case CommentsLength => f.comments.Some? && |f.comments.value| > 1000
  }

  /** What a live instance always satisfies: every field constraint, and
      comments already stripped. */
  predicate Valid(s: Submission, isEmail: string -> bool) {
    && Accepts(s, isEmail)
    && (s.comments.Some? ==> NoEdgeWhitespace(s.comments.value))
  }

  /** The `comments` validator: a present comment is stripped of surrounding
      whitespace, an absent one stays absent. */
  function StripComments(c: Option<string>): (r: Option<string>)
    ensures r.Some? <==> c.Some?
    ensures r.Some? ==> |r.value| <= |c.value| && NoEdgeWhitespace(r.value)
    ensures r.Some? ==> exists i :: TrimOf(c.value, i, r.value)
  {
    match c
    case None => None
    case Some(s) => Some(Strip(s))
  }

  /** Stripping the comments a second time changes nothing. */
  lemma StripCommentsIdempotent(c: Option<string>)
    ensures StripComments(StripComments(c)) == StripComments(c)
  {
    if c.Some? {
      StripIdempotent(c.value);
    }
  }

  /** "  hello  " is stored as "hello". */
  lemma StripCommentsExample()
    ensures StripComments(Some("  hello  ")) == Some("hello")
  {
    var s := "  hello  ";
    assert s[2..7] == "hello" && s[..2] == "  " && s[7..] == "  ";
    assert TrimOf(s, 2, "hello");
    StripUnique(s, 2, "hello");
  }

  /** The `consent` validator: anything but `true` is refused. */
  function MustConsent(v: bool): (r: Result<bool, Violation>)
    ensures r.Ok? <==> v
    ensures r.Ok? ==> r.value
    ensures r.Err? ==> r.error == ConsentRequired
  {
    if v != true then Err(ConsentRequired) else Ok(v)
  }

  function Check(failed: bool, v: Violation): seq<Violation> {
    if failed then [v] else []
  }

  /** Every failed constraint, in the order the fields are declared. */
  function Violations(f: Submission, isEmail: string -> bool): (r: seq<Violation>)
    ensures forall v :: v in r <==> Violates(f, isEmail, v)
    ensures r == [] <==> Accepts(f, isEmail)
  {
    var consent := match MustConsent(f.consent) case Ok(_) => [] case Err(e) => [e];
    Check(!(1 <= |f.name| <= 100), NameLength)
    + Check(!isEmail(f.email), EmailFormat)
    + Check(!(13 <= f.age <= 120), AgeRange)
    + consent
    + Check(!(1 <= f.rating <= 5), RatingRange)
    + Check(f.comments.Some? && |f.comments.value| > 1000, CommentsLength)
  }

  /** Building a `SurveySubmission`: the instance exists exactly when every
      constraint holds, it satisfies `Valid`, and only the comments are
      changed on the way in; otherwise the refusal names exactly the failed
      constraints. */
  function Construct(f: Submission, isEmail: string -> bool): (r: Result<Submission, seq<Violation>>)
    ensures r.Ok? <==> Accepts(f, isEmail)
    ensures r.Err? ==> r.error != [] && forall v :: v in r.error <==> Violates(f, isEmail, v)
    ensures r.Ok? ==> Valid(r.value, isEmail) && r.value.consent
    ensures r.Ok? ==> r.value.comments == StripComments(f.comments)
    ensures r.Ok? ==> r.value == f.(comments := r.value.comments)
  {
    var errors := Violations(f, isEmail);
    if errors == [] then Ok(f.(comments := StripComments(f.comments))) else Err(errors)
  }

  /** Breaking any single constraint refuses the input, and the refusal names it. */
  lemma ViolationRejects(f: Submission, isEmail: string -> bool, v: Violation)
    requires Violates(f, isEmail, v)
    ensures Construct(f, isEmail).Err? && v in Construct(f, isEmail).error
  {
  }

  /** Without consent there is no instance, and the refusal is the consent one. */
  lemma ConsentFalseRejected(f: Submission, isEmail: string -> bool)
    requires !f.consent
    ensures Construct(f, isEmail).Err? && ConsentRequired in Construct(f, isEmail).error
  {
  }

  /** The comment bound holds of the stored comment too, although it is
      checked before stripping. */
  lemma ConstructedCommentsBounded(f: Submission, isEmail: string -> bool)
    requires Construct(f, isEmail).Ok?
    ensures var s := Construct(f, isEmail).value;
      s.comments.Some? ==> |s.comments.value| <= 1000 && Strip(s.comments.value) == s.comments.value
  {
    var s := Construct(f, isEmail).value;
    if s.comments.Some? {
      StripFixedPoint(s.comments.value);
    }
  }

  /** Building again from a built instance gives the same instance. */
  lemma ConstructIdempotent(f: Submission, isEmail: string -> bool)
    requires Construct(f, isEmail).Ok?
    ensures Construct(Construct(f, isEmail).value, isEmail) == Construct(f, isEmail)
  {
    StripCommentsIdempotent(f.comments);
  }

  /** The mapping `to_storable` returns, one field per key ("name",
      "email", "age", "consent", "rating", "comments", "user_agent",
      "submission_id"); `email` and `age` hold hex digests. */
  datatype Storable = Storable(
    name: string,
    email: string,
    age: string,
    consent: bool,
    rating: int,
    comments: Option<string>,
    userAgent: Option<string>,
    submissionId: string)

  /** Every entry of `r` that is not personal data is the submission's own field. */
  predicate CopiesNonPii(r: Storable, s: Submission) {
    && r.name == s.name
    && r.consent == s.consent
    && r.rating == s.rating
    && r.comments == s.comments
    && r.userAgent == s.userAgent
    && r.submissionId == s.submissionId
  }

  /** `SurveySubmission.to_storable`: `email` becomes the digest of the
      address, `age` the digest of its decimal text, and everything else is
      copied unchanged. */
  function ToStorable(s: Submission, hash: string -> string): (r: Storable)
    ensures CopiesNonPii(r, s)
    ensures r.email == hash(s.email)
    ensures r.age == hash(IntToString(s.age))
  {
    Storable(s.name, hash(s.email), hash(IntToString(s.age)), s.consent, s.rating,
             s.comments, s.userAgent, s.submissionId)
  }

  /** The storage form depends on the address and the age only through their
      digests: submissions that agree elsewhere and whose personal fields
      digest alike are stored alike. */
  lemma ToStorableSeesOnlyDigests(s: Submission, t: Submission, hash: string -> string)
    requires s.(email := t.email, age := t.age) == t
    requires hash(s.email) == hash(t.email) && hash(IntToString(s.age)) == hash(IntToString(t.age))
    ensures ToStorable(s, hash) == ToStorable(t, hash)
  {
  }

  /** For a valid age the digested text has two or three digits, no leading
      zero, and reads back as the age. */
  lemma AgeDigestInput(s: Submission, hash: string -> string)
    requires 13 <= s.age <= 120
    ensures var d := IntToString(s.age);
      && ToStorable(s, hash).age == hash(d)
      && 2 <= |d| <= 3 && AllDigits(d) && d[0] != '0' && DecimalValue(d) == s.age
  {
    assert Pow10(1) == 10 && Pow10(2) == 100 && Pow10(3) == 1000;
    if s.age < 100 {
      DecimalLength(s.age, 2);
    } else {
      DecimalLength(s.age, 3);
    }
  }

  /** A `StoredSurveyRecord`: a submission with the server's receipt time and
      the client's address. */
  datatype StoredRecord = StoredRecord(submission: Submission, receivedAt: DateTime, ip: string)

  /** The mapping a stored record's `to_storable` returns: the submission's
      entries plus "received_at" and "ip". */
  datatype StoredRecordStorable = StoredRecordStorable(entries: Storable, receivedAt: DateTime, ip: string)

  /** Building a `StoredSurveyRecord`: the same constraints as a submission;
      the receipt time and address are taken as they are. */
  function ConstructRecord(f: Submission, receivedAt: DateTime, ip: string, isEmail: string -> bool)
    : (r: Result<StoredRecord, seq<Violation>>)
    ensures r.Ok? <==> Accepts(f, isEmail)
    ensures r.Err? ==> r.error != [] && forall v :: v in r.error <==> Violates(f, isEmail, v)
    ensures r.Ok? ==> Valid(r.value.submission, isEmail) && r.value.receivedAt == receivedAt && r.value.ip == ip
    ensures r.Ok? ==> r.value.submission == f.(comments := StripComments(f.comments))
  {
    match Construct(f, isEmail)
    case Ok(s) => Ok(StoredRecord(s, receivedAt, ip))
    case Err(e) => Err(e)
  }

  /** Python's `not v` for the `str` that `data.get("submission_id")`
      returns (the field is required, so the key is always there): true
      exactly for the empty string. */
  predicate Falsy(v: string) {
    |v| == 0
  }

  /** The fallback id: the digest of the unredacted address followed by the
      hour key of the clock reading. */
  function SynthesizedId(email: string, now: DateTime, hash: string -> string): string
    requires ValidDateTime(now)
  {
    hash(email + HourKey(now))
  }

  /** `StoredSurveyRecord.to_storable`, with `now` the UTC clock reading it
      takes. The two digests replace `email` and `age`; an empty submission
      id becomes the digest of the unredacted address and the hour key, a
      non-empty one is kept; every other entry, `received_at` and `ip`
      included, is stored as the record holds it. */
  function RecordToStorable(rec: StoredRecord, hash: string -> string, now: DateTime): (r: StoredRecordStorable)
    requires ValidDateTime(now)
    ensures r.entries.email == hash(rec.submission.email)
    ensures r.entries.age == hash(IntToString(rec.submission.age))
    ensures r.receivedAt == rec.receivedAt && r.ip == rec.ip
    ensures rec.submission.submissionId != "" ==> CopiesNonPii(r.entries, rec.submission)
    ensures rec.submission.submissionId == "" ==>
              && CopiesNonPii(r.entries, rec.submission.(submissionId := r.entries.submissionId))
              && r.entries.submissionId == hash(rec.submission.email + HourKey(now))
  {
    var s := rec.submission;
    var data := ToStorable(s, hash);
    var entries :=
      if Falsy(data.submissionId) then data.(submissionId := SynthesizedId(s.email, now, hash)) else data;
    StoredRecordStorable(entries, rec.receivedAt, rec.ip)
  }

  /** With a submission id present, a record stores the submission's entries
      exactly as `SurveySubmission.to_storable` does; without one, they differ
      only in the id. */
  lemma RecordAgreesWithSubmission(rec: StoredRecord, hash: string -> string, now: DateTime)
    requires ValidDateTime(now)
    ensures var base, r := ToStorable(rec.submission, hash), RecordToStorable(rec, hash, now).entries;
      && (rec.submission.submissionId != "" ==> r == base)
      && r == base.(submissionId := r.submissionId)
  {
  }

  /** Two records from the same address, both without an id, stored within
      the same UTC hour, get the same synthesised id; nothing else about the
      records matters. */
  lemma SynthesizedIdDeterministic(a: StoredRecord, b: StoredRecord, hash: string -> string,
                                   nowA: DateTime, nowB: DateTime)
    requires ValidDateTime(nowA) && ValidDateTime(nowB) && SameHour(nowA, nowB)
    requires a.submission.email == b.submission.email
    requires a.submission.submissionId == "" && b.submission.submissionId == ""
    ensures RecordToStorable(a, hash, nowA).entries.submissionId == RecordToStorable(b, hash, nowB).entries.submissionId
  {
    HourKeyDeterministic(nowA, nowB);
  }

  /** The clock, not the receipt time, decides the synthesised id: changing
      `received_at` changes the stored `received_at` and nothing else. */
  lemma ReceivedAtOnlyStored(rec: StoredRecord, t: DateTime, hash: string -> string, now: DateTime)
    requires ValidDateTime(now)
    ensures RecordToStorable(rec.(receivedAt := t), hash, now)
            == RecordToStorable(rec, hash, now).(receivedAt := t)
  {
  }

  /** Address "a@b.com" with no id, clock at 2024-03-01 10:15 UTC: the id is
      the digest of "a@b.com2024030110". */
  lemma SynthesizedIdExample(rec: StoredRecord, hash: string -> string)
    requires rec.submission.email == "a@b.com" && rec.submission.submissionId == ""
    ensures RecordToStorable(rec, hash, DateTime(2024, 3, 1, 10, 15, 0, 0)).entries.submissionId
            == hash("a@b.com2024030110")
  {
    HourKeyExample();
    assert "a@b.com" + "2024030110" == "a@b.com2024030110";
  }
}
