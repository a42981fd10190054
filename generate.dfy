/**
 * Per-contact generation and the batch loop (generateQrCodeForContact and
 * generateBulkQrCodes in src/generate-qr.js).
 *
 * The vCard library and the QR renderer are foreign code; they enter as
 * function parameters whose exceptions are an Outcome. Every exception
 * inside the per-contact boundary becomes a Failure result; none stops the
 * batch.
 */
module Generate {
  import opened Contacts
  import opened Filenames

  /** What a call into foreign code gives back: a value, or a thrown error's message. */
  datatype Outcome<T> = Ok(value: T) | Thrown(message: string)

  /** The options passed to QRCode.toFile. */
  datatype QrOptions = QrOptions(errorCorrectionLevel: char, imageType: string, margin: nat, scale: nat)

  const RenderOptions: QrOptions := QrOptions('H', "png", 4, 8)

  /** One QRCode.toFile call: the file folder/filename gets a QR symbol of payload. */
  datatype RenderRequest = RenderRequest(folder: string, filename: string, payload: string, options: QrOptions)

  /** One entry of the results list. */
  datatype GenerationResult =
    | Success(filename: string, contact: string)
    | Failure(error: string, contact: string)

  /** vcards-js: the formatted card text for the fields set on it. */
  type CardFormatter = CardFields -> Outcome<string>

  /** QRCode.toFile: writes the image or throws. */
  type QrRenderer = RenderRequest -> Outcome<()>

  const CardHeader: string := "BEGIN:VCARD"
  const InvalidCardMessage: string := "Invalid vCard format"
  const UnknownDisplayName: string := "Unknown"

  predicate StartsWith(s: string, prefix: string) {
    |prefix| <= |s| && s[..|prefix|] == prefix
  }

  /** The name shown for a generated file: the file name's first name ("unknown" default) and the last name. */
  function SuccessName(rec: Record): (n: string)
    ensures Cell(rec, "firstName") != "" ==> n == Cell(rec, "firstName") + " " + LastName(rec)
    ensures Cell(rec, "firstName") == "" && Cell(rec, "FirstName") != "" ==> n == Cell(rec, "FirstName") + " " + LastName(rec)
    ensures NoHit(rec, FirstNameKeys) ==> n == UnknownFirstName + " " + LastName(rec)
  {
    FileFirstName(rec) + " " + LastName(rec)
  }

  /** The name shown for a failure, recomputed in the handler with the "Unknown" default. */
  function FailureName(rec: Record): (n: string)
    ensures Cell(rec, "firstName") != "" ==> n == Cell(rec, "firstName") + " " + LastName(rec)
    ensures Cell(rec, "firstName") == "" && Cell(rec, "FirstName") != "" ==> n == Cell(rec, "FirstName") + " " + LastName(rec)
    ensures NoHit(rec, FirstNameKeys) ==> n == UnknownDisplayName + " " + LastName(rec)
  {
    PairResolution(rec, "firstName", "FirstName", UnknownDisplayName);
    Resolve(rec, FirstNameKeys, UnknownDisplayName) + " " + LastName(rec)
  }

  /**
   * The success and failure display names agree exactly when the row has a
   * first name; without one they differ in the case of "unknown".
   */
  lemma DisplayNamesAgree(rec: Record)
    ensures SuccessName(rec) == FailureName(rec) <==> !NoHit(rec, FirstNameKeys)
  {
    if NoHit(rec, FirstNameKeys) {
      assert SuccessName(rec)[0] == 'u' && FailureName(rec)[0] == 'U';
    } else {
      PairResolution(rec, "firstName", "FirstName", UnknownFirstName);
      PairResolution(rec, "firstName", "FirstName", UnknownDisplayName);
    }
  }

  /**
   * The render call made for a record whose card text passed the header
   * check: the folder, the derived file name, the card text as payload and
   * the fixed options. A helper of GenerateForContact.
   */
  function RequestFor(rec: Record, folder: string, card: string, now: nat): RenderRequest {
    RenderRequest(folder, DeriveFilename(rec, now), card, RenderOptions)
  }

  /**
   * generateQrCodeForContact: format the card, check its header, derive the
   * file name, render. Any step that throws makes the result a Failure that
   * carries the step's message.
   */
  function GenerateForContact(rec: Record, folder: string, format: CardFormatter, render: QrRenderer, now: nat)
    : (r: GenerationResult)
    ensures var card := format(CardFieldsOf(rec));
      && (r.Success? <==>
            card.Ok? && StartsWith(card.value, CardHeader) && render(RequestFor(rec, folder, card.value, now)).Ok?)
      && (r.Success? ==> r.filename == DeriveFilename(rec, now) && r.contact == SuccessName(rec))
      && (r.Failure? ==> r.contact == FailureName(rec))
      && (card.Thrown? ==> r.error == card.message)
      && (card.Ok? && !StartsWith(card.value, CardHeader) ==> r == Failure(InvalidCardMessage, FailureName(rec)))
      && (card.Ok? && StartsWith(card.value, CardHeader) && render(RequestFor(rec, folder, card.value, now)).Thrown? ==>
            r == Failure(render(RequestFor(rec, folder, card.value, now)).message, FailureName(rec)))
  {
    Classify(rec, folder, format(CardFieldsOf(rec)), render, now)
  }

  /** What happens to a row once its card text (or the formatter's error) is known. */
  function Classify(rec: Record, folder: string, card: Outcome<string>, render: QrRenderer, now: nat)
    : (r: GenerationResult)
    ensures r.Success? <==>
      card.Ok? && StartsWith(card.value, CardHeader) && render(RequestFor(rec, folder, card.value, now)).Ok?
    ensures r.Success? ==> r.filename == DeriveFilename(rec, now) && r.contact == SuccessName(rec)
    ensures r.Failure? ==> r.contact == FailureName(rec)
    ensures card.Thrown? ==> r.error == card.message
    ensures card.Ok? && !StartsWith(card.value, CardHeader) ==> r == Failure(InvalidCardMessage, FailureName(rec))
    ensures card.Ok? && StartsWith(card.value, CardHeader) && render(RequestFor(rec, folder, card.value, now)).Thrown? ==>
      r == Failure(render(RequestFor(rec, folder, card.value, now)).message, FailureName(rec))
  {
    match card
    case Thrown(msg) => Failure(msg, FailureName(rec))
    case Ok(text) =>
      if !StartsWith(text, CardHeader) then Failure(InvalidCardMessage, FailureName(rec))
      else
        match render(RequestFor(rec, folder, text, now))
        case Thrown(msg) => Failure(msg, FailureName(rec))
        case Ok(_) => Success(DeriveFilename(rec, now), SuccessName(rec))
  }

  /** The number of successes in a results list. */
  function CountSuccesses(results: seq<GenerationResult>): (n: nat)
    ensures n <= |results|
  {
    if results == [] then 0
    else CountSuccesses(results[..|results| - 1]) + (if results[|results| - 1].Success? then 1 else 0)
  }

  /** The number of failures in a results list. */
  function CountFailures(results: seq<GenerationResult>): (n: nat)
    ensures n <= |results|
  {
    if results == [] then 0
    else CountFailures(results[..|results| - 1]) + (if results[|results| - 1].Failure? then 1 else 0)
  }

  /** Every result is a success or a failure, so the two counts add up to the length. */
  lemma {:induction false} CountsPartition(results: seq<GenerationResult>)
    ensures CountSuccesses(results) + CountFailures(results) == |results|
  {
    if results != [] {
      CountsPartition(results[..|results| - 1]);
    }
  }

  /** Appending one result adds it to exactly one of the two counts. */
  lemma CountsSnoc(results: seq<GenerationResult>, r: GenerationResult)
    ensures CountSuccesses(results + [r]) == CountSuccesses(results) + (if r.Success? then 1 else 0)
    ensures CountFailures(results + [r]) == CountFailures(results) + (if r.Failure? then 1 else 0)
  {
    assert (results + [r])[..|results|] == results;
  }

  /** The per-contact step as the loop sees it: a row and its position to a result. */
  type ContactStep = (Record, nat) -> GenerationResult

  /**
   * The loop of generateBulkQrCodes: run the step on every row in order,
   * push each result, and count successes and failures as they come.
   */
  method RunBatch(contacts: seq<Record>, step: ContactStep)
    returns (results: seq<GenerationResult>, successCount: nat, failCount: nat)
    ensures |results| == |contacts|
    ensures forall i :: 0 <= i < |contacts| ==> results[i] == step(contacts[i], i)
    ensures successCount == CountSuccesses(results) && failCount == CountFailures(results)
    ensures successCount + failCount == |contacts|
  {
    results, successCount, failCount := [], 0, 0;
    for i := 0 to |contacts|
      invariant |results| == i
      invariant forall k :: 0 <= k < i ==> results[k] == step(contacts[k], k)
      invariant successCount == CountSuccesses(results) && failCount == CountFailures(results)
    {
      var result := step(contacts[i], i);
      CountsSnoc(results, result);
      results := results + [result];
      if result.Success? {
        successCount := successCount + 1;
      } else {
        failCount := failCount + 1;
      }
    }
    CountsPartition(results);
  }

  /**
   * generateBulkQrCodes from the point the rows are read: every row is run
   * through generateQrCodeForContact, the clock giving the Date.now() value
   * seen while processing row i. One result per row, in row order, however
   * many rows fail; the counters agree with the results. An empty sheet
   * returns before the loop.
   */
  method GenerateBulk(contacts: seq<Record>, folder: string, format: CardFormatter, render: QrRenderer, clock: nat -> nat)
    returns (results: seq<GenerationResult>, successCount: nat, failCount: nat)
    ensures |results| == |contacts|
    ensures forall i :: 0 <= i < |contacts| ==>
      results[i] == GenerateForContact(contacts[i], folder, format, render, clock(i))
    ensures successCount == CountSuccesses(results) && failCount == CountFailures(results)
    ensures successCount + failCount == |contacts|
  {
    if |contacts| == 0 {
      return [], 0, 0;
    }
    results, successCount, failCount :=
      RunBatch(contacts, (rec: Record, i: nat) => GenerateForContact(rec, folder, format, render, clock(i)));
  }
}
