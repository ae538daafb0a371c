/**
 The request rules of the HTTP handlers: the validation chain that decides
 whether a create request is accepted (JSON API `createSecretHandler` and
 form page `sharePageHandler`), and the decision a view request comes to
 (`viewSecretHandler` and `submitViewPageHandler`), with their effect on
 the scheduler and on storage.

 Everything the handlers hand to other code is an input here: whether
 reading the uploaded file, encryption, the MinIO upload, bcrypt hashing,
 the database insert or lookup fails is a flag, "the password matches the
 stored hash" is a boolean, and the clock is an integer `now` in
 nanoseconds. Lengths are byte counts, as Go's `len` on strings is.
 */
module Handlers {
  import opened SecretHeap
  import opened Scheduler

  // ------------------------------------------------------------ limits

  /** 10 MB, for the text and for the uploaded file separately. */
  const MaxTextLength: nat := 10 * 1024 * 1024
  /** Seven days. */
  const MaxExpirationMinutes: int := 10080
  const MinPasswordLength: nat := 6
  /** bcrypt's input limit. */
  const MaxPasswordLength: nat := 72
  /** Go's `time.Minute`, in nanoseconds. */
  const Minute: int := 60 * 1000 * 1000 * 1000

  const StatusOK: int := 200
  const StatusBadRequest: int := 400
  const StatusUnauthorized: int := 401
  const StatusNotFound: int := 404
  const StatusGone: int := 410
  const StatusInternalServerError: int := 500

  datatype Option<T> = None | Some(value: T)

  // ------------------------------------------------------------ create

  /** The uploaded file, if the form carried one, by size. */
  datatype Upload = NoFile | File(size: nat)

  /** A create request once its fields are read. `minutes` is `None` when
      the expiry field does not parse as an integer. */
  datatype CreateRequest = CreateRequest(textLen: nat, upload: Upload, minutes: Option<int>, passwordLen: nat)

  /** Which of the handlers' collaborators fail on this request. */
  datatype CreateFaults = CreateFaults(
    openFails: bool, readFails: bool,
    encryptTextFails: bool, encryptFileFails: bool, uploadFails: bool,
    hashFails: bool, saveFails: bool)

  /** No collaborator fails. */
  predicate NoFaults(f: CreateFaults)
  {
    !f.openFails && !f.readFails && !f.encryptTextFails && !f.encryptFileFails
    && !f.uploadFails && !f.hashFails && !f.saveFails
  }

  /** The reply: the new secret's deadline, or a status and an error message. */
  datatype CreateOutcome = Created(expiresAt: int) | Refused(status: int, message: string)

  /** The reply, and whether the encrypted file was stored in MinIO. */
  datatype CreateResult = CreateResult(outcome: CreateOutcome, uploaded: bool)

  /** The validation checks, one per rejection the handlers can give. */
  datatype Check =
    | ContentMissing | ContentTooLong
    | ExpiryNotPositive | ExpiryTooLong
    | PasswordMissing | PasswordTooShort | PasswordTooLong

  /** The order both handlers run the checks in. */
  const CheckOrder: seq<Check> :=
    [ContentMissing, ContentTooLong, ExpiryNotPositive, ExpiryTooLong,
     PasswordMissing, PasswordTooShort, PasswordTooLong]

  /** The part of the chain the JSON handler runs before touching
      encryption and storage, and the part it runs after. */
  const ContentChecks: seq<Check> := CheckOrder[..2]
  const FieldChecks: seq<Check> := CheckOrder[2..]

  function FileLen(u: Upload): nat
  {
    if u.File? then u.size else 0
  }

  /** Whether a request is rejected by a check. An unparsable expiry counts
      as zero minutes: the page handler rejects a parse error outright, and
      the JSON handler leaves its integer at 0. */
  predicate Fails(c: Check, q: CreateRequest)
  {
    match c
    case ContentMissing => q.textLen == 0 && q.upload.NoFile?
    case ContentTooLong => q.textLen > MaxTextLength || FileLen(q.upload) > MaxTextLength
    case ExpiryNotPositive => q.minutes.None? || q.minutes.value <= 0
    case ExpiryTooLong => q.minutes.Some? && q.minutes.value > MaxExpirationMinutes
    case PasswordMissing => q.passwordLen == 0
    case PasswordTooShort => q.passwordLen < MinPasswordLength
    case PasswordTooLong => q.passwordLen > MaxPasswordLength
  }

  function Message(c: Check): (m: string)
    ensures |m| == MessageLength(c)
  {
    match c
    case ContentMissing => "Either text or a file is required"
    case ContentTooLong => "Content is too long (max 10MB)"
    case ExpiryNotPositive => "Expiration time must be greater than 0 minutes"
    case ExpiryTooLong => "Expiration time cannot exceed 7 days"
    case PasswordMissing => "Password is required"
    case PasswordTooShort => "Password must be at least 6 characters long"
    case PasswordTooLong => "Password is too long (max 72 characters)"
  }

  /** Each check has its own message, so a refusal names the check that
      rejected the request. */
  lemma MessagesDistinct(a: Check, b: Check)
    ensures Message(a) == Message(b) <==> a == b
  {
    if a != b {
      assert MessageLength(a) != MessageLength(b);
    }
  }

  /** The byte length of each message; no two are alike. It is stated so
      that `MessagesDistinct` compares lengths instead of unfolding the
      string literals, which is far cheaper for the verifier. */
  function MessageLength(c: Check): nat
  {
    match c
    case ContentMissing => 33
    case ContentTooLong => 30
    case ExpiryNotPositive => 46
    case ExpiryTooLong => 36
    case PasswordMissing => 20
    case PasswordTooShort => 43
    case PasswordTooLong => 40
  }

  /** Run the checks in order and stop at the first that rejects. */
  function FirstFailure(q: CreateRequest, cs: seq<Check>): (r: Option<Check>)
    ensures r.Some? ==> r.value in cs && Fails(r.value, q)
    decreases |cs|
  {
    if |cs| == 0 then None
    else if Fails(cs[0], q) then Some(cs[0])
    else FirstFailure(q, cs[1..])
  }

  /** No check appears twice in a chain. */
  predicate NoRepeats(cs: seq<Check>)
  {
    forall i, j :: 0 <= i < j < |cs| ==> cs[i] != cs[j]
  }

  /** Every check among the first `k` of the chain lets the request through. */
  predicate PassesBefore(q: CreateRequest, cs: seq<Check>, k: nat)
    requires k <= |cs|
  {
    forall i :: 0 <= i < k ==> !Fails(cs[i], q)
  }

  /** In a chain without repeats, the chain reports check `cs[k]` exactly
      when it rejects and no check before it does; it reports nothing
      exactly when no check rejects. */
  lemma {:induction false} FirstFailureIsFirst(q: CreateRequest, cs: seq<Check>)
    requires NoRepeats(cs)
    ensures forall k :: 0 <= k < |cs| ==>
      (FirstFailure(q, cs) == Some(cs[k]) <==> Fails(cs[k], q) && PassesBefore(q, cs, k))
    ensures FirstFailure(q, cs) == None <==> PassesBefore(q, cs, |cs|)
    decreases |cs|
  {
    if |cs| > 0 {
      var tail := cs[1..];
      assert forall i :: 0 <= i < |tail| ==> tail[i] == cs[i + 1];
      FirstFailureIsFirst(q, tail);
      if !Fails(cs[0], q) {
        forall k | 0 < k <= |cs|
          ensures PassesBefore(q, cs, k) <==> PassesBefore(q, tail, k - 1)
        {
          if PassesBefore(q, tail, k - 1) {
            forall i | 0 < i < k
              ensures !Fails(cs[i], q)
            {
              assert cs[i] == tail[i - 1];
            }
          }
        }
      }
    }
  }

  /** Running two stretches of the chain one after the other is running
      their concatenation. */
  lemma {:induction false} FirstFailureAppend(q: CreateRequest, a: seq<Check>, b: seq<Check>)
    ensures FirstFailure(q, a + b) ==
      (if FirstFailure(q, a).Some? then FirstFailure(q, a) else FirstFailure(q, b))
    decreases |a|
  {
    if |a| > 0 {
      assert (a + b)[1..] == a[1..] + b;
      FirstFailureAppend(q, a[1..], b);
    } else {
      assert a + b == b;
    }
  }

  /** The JSON handler splits the chain around its storage work without
      changing which check rejects. */
  lemma ChecksSplit(q: CreateRequest)
    ensures FirstFailure(q, CheckOrder) ==
      (if FirstFailure(q, ContentChecks).Some? then FirstFailure(q, ContentChecks)
       else FirstFailure(q, FieldChecks))
  {
    assert CheckOrder == ContentChecks + FieldChecks;
    FirstFailureAppend(q, ContentChecks, FieldChecks);
  }

  /** A request no check rejects has content within the limit, an expiry
      between 1 and 10080 minutes and a password of 6 to 72 bytes. */
  lemma PassingRequest(q: CreateRequest)
    requires FirstFailure(q, CheckOrder) == None
    ensures q.textLen > 0 || q.upload.File?
    ensures q.textLen <= MaxTextLength && FileLen(q.upload) <= MaxTextLength
    ensures q.minutes.Some? && 1 <= q.minutes.value <= MaxExpirationMinutes
    ensures MinPasswordLength <= q.passwordLen <= MaxPasswordLength
  {
    FirstFailureIsFirst(q, CheckOrder);
    assert !Fails(CheckOrder[0], q) && !Fails(CheckOrder[1], q) && !Fails(CheckOrder[2], q);
    assert !Fails(CheckOrder[3], q) && !Fails(CheckOrder[5], q) && !Fails(CheckOrder[6], q);
  }

  /** The deadline of an accepted request: the creation time plus the
      requested number of minutes. */
  function Deadline(q: CreateRequest, now: int): (t: int)
    requires FirstFailure(q, CheckOrder) == None
    ensures now + Minute <= t <= now + MaxExpirationMinutes * Minute
    ensures (t - now) % Minute == 0
  {
    PassingRequest(q);
    now + q.minutes.value * Minute
  }

  /** Reading the uploaded file into memory; both handlers answer 500. */
  function ReadUpload(q: CreateRequest, f: CreateFaults): Option<string>
  {
    if q.upload.File? && f.openFails then Some("Failed to process file")
    else if q.upload.File? && f.readFails then Some("Failed to read file")
    else None
  }

  /** Encrypting the text and the file and uploading the file, in that order. */
  function Encrypt(q: CreateRequest, f: CreateFaults): Option<string>
  {
    if q.textLen > 0 && f.encryptTextFails then Some("Failed to encrypt text")
    else if q.upload.File? && f.encryptFileFails then Some("Failed to encrypt file")
    else if q.upload.File? && f.uploadFails then Some("Failed to upload file to MinIO")
    else None
  }

  /** Hashing the password and inserting the row. */
  function Save(f: CreateFaults): Option<string>
  {
    if f.hashFails then Some("Failed to hash password")
    else if f.saveFails then Some("Could not save secret")
    else None
  }

  /** `createSecretHandler` as written: after the content checks it
      encrypts and uploads, and only then checks the expiry and the
      password. Collaborator failures answer 500. */
  function CreateApi(q: CreateRequest, f: CreateFaults, now: int): (r: CreateResult)
    ensures r.outcome.Created? ==>
      FirstFailure(q, CheckOrder) == None && r.outcome.expiresAt == Deadline(q, now)
    ensures r.outcome.Refused? ==> r.outcome.status in {StatusBadRequest, StatusInternalServerError}
  {
    ChecksSplit(q);
    if ReadUpload(q, f).Some? then
      CreateResult(Refused(StatusInternalServerError, ReadUpload(q, f).value), false)
    else if FirstFailure(q, ContentChecks).Some? then
      CreateResult(Refused(StatusBadRequest, Message(FirstFailure(q, ContentChecks).value)), false)
    else if Encrypt(q, f).Some? then
      CreateResult(Refused(StatusInternalServerError, Encrypt(q, f).value), false)
    else
      var uploaded := q.upload.File?;
      if FirstFailure(q, FieldChecks).Some? then
        CreateResult(Refused(StatusBadRequest, Message(FirstFailure(q, FieldChecks).value)), uploaded)
      else if Save(f).Some? then
        CreateResult(Refused(StatusInternalServerError, Save(f).value), uploaded)
      else
        CreateResult(Created(Deadline(q, now)), uploaded)
  }

  /** `createSecretHandler` with every check run before any storage work,
      as the page handler does; collaborator failures still answer 500. */
  function CreateApiValidated(q: CreateRequest, f: CreateFaults, now: int): (r: CreateResult)
    ensures r.outcome.Created? ==>
      FirstFailure(q, CheckOrder) == None && r.outcome.expiresAt == Deadline(q, now)
    ensures FirstFailure(q, CheckOrder).Some? ==> !r.uploaded
  {
    if ReadUpload(q, f).Some? then
      CreateResult(Refused(StatusInternalServerError, ReadUpload(q, f).value), false)
    else if FirstFailure(q, CheckOrder).Some? then
      CreateResult(Refused(StatusBadRequest, Message(FirstFailure(q, CheckOrder).value)), false)
    else if Encrypt(q, f).Some? then
      CreateResult(Refused(StatusInternalServerError, Encrypt(q, f).value), false)
    else if Save(f).Some? then
      CreateResult(Refused(StatusInternalServerError, Save(f).value), q.upload.File?)
    else
      CreateResult(Created(Deadline(q, now)), q.upload.File?)
  }

  /** `sharePageHandler`: file reading failures answer 500; every check
      runs before any storage work, and collaborator failures after the
      checks are rendered with status 400. */
  function CreatePage(q: CreateRequest, f: CreateFaults, now: int): (r: CreateResult)
    ensures r.outcome.Created? ==>
      FirstFailure(q, CheckOrder) == None && r.outcome.expiresAt == Deadline(q, now)
    ensures FirstFailure(q, CheckOrder).Some? ==> !r.uploaded
  {
    if ReadUpload(q, f).Some? then
      CreateResult(Refused(StatusInternalServerError, ReadUpload(q, f).value), false)
    else if FirstFailure(q, CheckOrder).Some? then
      CreateResult(Refused(StatusBadRequest, Message(FirstFailure(q, CheckOrder).value)), false)
    else if Encrypt(q, f).Some? then
      CreateResult(Refused(StatusBadRequest, Encrypt(q, f).value), false)
    else if Save(f).Some? then
      CreateResult(Refused(StatusBadRequest, Save(f).value), q.upload.File?)
    else
      CreateResult(Created(Deadline(q, now)), q.upload.File?)
  }

  /** With no collaborator failing, each create handler accepts exactly the
      requests no check rejects, and otherwise answers 400 with the message
      of the first check that rejects. */
  lemma CreateDecision(q: CreateRequest, f: CreateFaults, now: int)
    requires NoFaults(f)
    ensures var api := CreateApi(q, f, now).outcome;
      var fixed := CreateApiValidated(q, f, now).outcome;
      var page := CreatePage(q, f, now).outcome;
      && (FirstFailure(q, CheckOrder) == None ==>
            api == fixed == page == Created(Deadline(q, now)))
      && (forall c :: FirstFailure(q, CheckOrder) == Some(c) ==>
            api == fixed == page == Refused(StatusBadRequest, Message(c)))
  {
    ChecksSplit(q);
  }

  /** A request with a file whose expiry is 0 minutes: the JSON handler
      uploads the encrypted file, then refuses the request, so the object
      stays in MinIO with no row pointing at it. */
  lemma OrphanedUpload()
    ensures var q := CreateRequest(0, File(1), Some(0), 8);
      var f := CreateFaults(false, false, false, false, false, false, false);
      && CreateApi(q, f, 0) ==
           CreateResult(Refused(StatusBadRequest, "Expiration time must be greater than 0 minutes"), true)
      && !CreateApiValidated(q, f, 0).uploaded
  {
    var q := CreateRequest(0, File(1), Some(0), 8);
    assert FirstFailure(q, ContentChecks) == None;
    assert FirstFailure(q, FieldChecks) == Some(ExpiryNotPositive);
  }

  /** The two JSON handler orders differ only on requests some check
      rejects. */
  lemma ReorderOnlyMovesRejections(q: CreateRequest, f: CreateFaults, now: int)
    requires FirstFailure(q, CheckOrder) == None
    ensures CreateApi(q, f, now) == CreateApiValidated(q, f, now)
  {
    ChecksSplit(q);
  }

  /** Creating a secret: on acceptance the row is inserted under the id the
      database assigns and the id is scheduled for the row's deadline; a
      refused request changes neither. `page` selects `sharePageHandler`,
      otherwise the JSON handler as written answers. */
  method CreateSecret(s: State, store: Store, page: bool, q: CreateRequest, f: CreateFaults,
                      now: int, newId: int)
    returns (outcome: CreateOutcome, s': State, store': Store)
    requires Valid(s)
    ensures Valid(s')
    ensures outcome == (if page then CreatePage(q, f, now) else CreateApi(q, f, now)).outcome
    ensures outcome.Refused? ==> s' == s && store' == store
    ensures outcome.Created? ==>
      && now + Minute <= outcome.expiresAt <= now + MaxExpirationMinutes * Minute
      && store' == store[newId := outcome.expiresAt]
      && s'.indexMap == s.indexMap + {newId}
      && (newId !in s.indexMap ==>
            Contents(s'.heap) == Contents(s.heap) + multiset{Record(newId, outcome.expiresAt)})
      && (newId in s.indexMap ==> s' == s)
  {
    var r := if page then CreatePage(q, f, now) else CreateApi(q, f, now);
    outcome := r.outcome;
    if outcome.Refused? {
      return outcome, s, store;
    }
    store' := store[newId := outcome.expiresAt];
    s' := AddSecret(s, newId, outcome.expiresAt);
  }

  // ------------------------------------------------------------ view

  /** A stored secret as the view handlers see it. `deleted` is a nonzero
      `DeletedAt`. */
  datatype Row = Row(id: int, expiresAt: int, deleted: bool, hasText: bool, hasFile: bool)

  /** The database lookup by UUID. */
  datatype Lookup = NoRow | LookupFails | Found(row: Row)

  /** A view request: whether the id is a well-formed UUID, what the lookup
      returned, whether the JSON body parses (the page handler reads a form
      field instead), the password's length, and whether it matches the
      stored hash. */
  datatype ViewRequest = ViewRequest(
    idValid: bool, lookup: Lookup, bodyParses: bool, passwordLen: nat, passwordMatches: bool)

  datatype ViewFaults = ViewFaults(
    decryptTextFails: bool, getObjectFails: bool, readObjectFails: bool, decryptFileFails: bool)

  /** What a view request comes to. */
  datatype Verdict =
    | BadId | NotFound | LookupError | BadBody | NoPassword | WrongPassword | Expired
    | DecryptTextFailed | GetObjectFailed | ReadObjectFailed | DecryptFileFailed
    | Revealed

  /** The view handlers' decision; `api` selects `viewSecretHandler`, which
      also parses a JSON body. */
  function Decide(api: bool, q: ViewRequest, f: ViewFaults, now: int): (v: Verdict)
    ensures v == Revealed <==>
      && q.idValid && q.lookup.Found? && !q.lookup.row.deleted
      && (api ==> q.bodyParses) && q.passwordLen > 0 && q.passwordMatches
      && now <= q.lookup.row.expiresAt
      && (q.lookup.row.hasText ==> !f.decryptTextFails)
      && (q.lookup.row.hasFile ==> !f.getObjectFails && !f.readObjectFails && !f.decryptFileFails)
    ensures v == Expired <==>
      && q.idValid && q.lookup.Found? && !q.lookup.row.deleted
      && (api ==> q.bodyParses) && q.passwordLen > 0 && q.passwordMatches
      && now > q.lookup.row.expiresAt
    ensures v == WrongPassword <==>
      && q.idValid && q.lookup.Found? && !q.lookup.row.deleted
      && (api ==> q.bodyParses) && q.passwordLen > 0 && !q.passwordMatches
    ensures q.idValid && q.lookup.Found? && q.lookup.row.deleted ==> v == NotFound
  {
    if !q.idValid then BadId
    else if q.lookup.NoRow? then NotFound
    else if q.lookup.LookupFails? then LookupError
    else if q.lookup.row.deleted then NotFound
    else if api && !q.bodyParses then BadBody
    else if q.passwordLen == 0 then NoPassword
    else if !q.passwordMatches then WrongPassword
    else if now > q.lookup.row.expiresAt then Expired
    else if q.lookup.row.hasText && f.decryptTextFails then DecryptTextFailed
    else if q.lookup.row.hasFile && f.getObjectFails then GetObjectFailed
    else if q.lookup.row.hasFile && f.readObjectFails then ReadObjectFailed
    else if q.lookup.row.hasFile && f.decryptFileFails then DecryptFileFailed
    else Revealed
  }

  /** The HTTP status each verdict is answered with (both handlers). */
  function Status(v: Verdict): (code: int)
    ensures v == Revealed <==> code == StatusOK
    ensures code == StatusNotFound <==> v == NotFound
    ensures code == StatusUnauthorized <==> v == WrongPassword
    ensures code == StatusGone <==> v == Expired
  {
    match v
    case BadId => StatusBadRequest
    case NotFound => StatusNotFound
    case LookupError => StatusInternalServerError
    case BadBody => StatusBadRequest
    case NoPassword => StatusBadRequest
    case WrongPassword => StatusUnauthorized
    case Expired => StatusGone
    case Revealed => StatusOK
    case _ => StatusInternalServerError
  }

  /** The lookup of `id` in storage: rows already deleted are gone from it,
      so a row that is found is live. */
  function LookupIn(store: Store, id: int, lookupFails: bool, hasText: bool, hasFile: bool): (l: Lookup)
    ensures l.Found? <==> !lookupFails && id in store
    ensures l.Found? ==> l.row == Row(id, store[id], false, hasText, hasFile)
    ensures l == NoRow <==> !lookupFails && id !in store
  {
    if lookupFails then LookupFails
    else if id in store then Found(Row(id, store[id], false, hasText, hasFile))
    else NoRow
  }

  /** Viewing a secret. The handlers decide as `Decide` does on the row
      storage holds. A reveal cancels the id in the scheduler and then
      deletes the row; an expired secret has its row deleted but stays
      scheduled. A delete that fails (`deleteFails`) is only logged, so the
      row stays in storage. Every other verdict changes nothing. */
  method ViewSecret(s: State, store: Store, api: bool, idValid: bool, id: int, lookupFails: bool,
                    hasText: bool, hasFile: bool, bodyParses: bool, passwordLen: nat,
                    passwordMatches: bool, f: ViewFaults, deleteFails: bool, now: int)
    returns (v: Verdict, s': State, store': Store)
    requires Valid(s)
    ensures Valid(s')
    ensures v == Decide(api, ViewRequest(idValid, LookupIn(store, id, lookupFails, hasText, hasFile),
                                         bodyParses, passwordLen, passwordMatches), f, now)
    ensures v == Revealed ==>
      && id in store && now <= store[id]
      && store' == (if deleteFails then store else store - {id})
      && s'.indexMap == s.indexMap - {id}
      && forall r: Record :: r.id != id ==> Contents(s'.heap)[r] == Contents(s.heap)[r]
    ensures v == Expired ==>
      && id in store && now > store[id] && s' == s
      && store' == (if deleteFails then store else store - {id})
    ensures v != Revealed && v != Expired ==> store' == store && s' == s
    ensures idValid && !lookupFails && id !in store ==> v == NotFound
  {
    var lookup := LookupIn(store, id, lookupFails, hasText, hasFile);
    v := Decide(api, ViewRequest(idValid, lookup, bodyParses, passwordLen, passwordMatches), f, now);
    s', store' := s, store;
    if v == Revealed {
      s' := RemoveSecret(s, id);
    }
    if (v == Revealed || v == Expired) && !deleteFails {
      store' := Purge(store, id);
    }
  }

  /** Once a reveal's delete succeeds, every later view of the same id is
      answered "not found": the secret is shown once. */
  lemma ViewedOnce(store: Store, id: int, api: bool, hasText: bool, hasFile: bool, bodyParses: bool,
                   passwordLen: nat, passwordMatches: bool, f: ViewFaults, now: int)
    ensures Decide(api, ViewRequest(true, LookupIn(Purge(store, id), id, false, hasText, hasFile),
                                    bodyParses, passwordLen, passwordMatches), f, now) == NotFound
  {
  }
}
