/** What the queue is told when a delivery of a wallet job fails: the text of the failure is put
    together on the way out, and decides between another attempt and the end of the job. */
module JobVerdicts {
  import opened Common
  import opened ByteOrder
  import opened RememberDb
  import opened RememberJobs
  import opened RememberHandlers
  import E = JobErrors
  import Base64

  // ---------- the texts ----------

  /** The base64 decoder's errors, and the upload client's. */
  datatype DecodeError =
    | InvalidByte(offset: nat, byte: Byte) | InvalidLength(length: nat)
    | InvalidLastSymbol(offset: nat, byte: Byte) | InvalidPadding

  datatype UploadError = RequestFailed(text: string) | SidecarError(text: string) | BadAnswer(text: string) | TransferFailed

  datatype Cause = Undecodable(e: DecodeError) | NotUploaded(u: UploadError) | NotInserted(text: string)

  function Decimal(n: nat): (s: string)
    ensures forall i :: 0 <= i < |s| ==> '0' <= s[i] <= '9'
  {
    (if n < 10 then [] else Decimal(n / 10)) + [(('0' as int) + n % 10) as char]
  }

  function DecodeText(e: DecodeError): string {
    match e
    case InvalidByte(offset, byte) => "Invalid symbol " + Decimal(byte) + ", offset " + Decimal(offset) + "."
    case InvalidLength(length) => "Invalid input length: " + Decimal(length)
    case InvalidLastSymbol(offset, byte) => "Invalid last symbol " + Decimal(byte) + ", offset " + Decimal(offset) + "."
    case InvalidPadding => "Invalid padding"
  }

  const DECODE: string := "base64 decode failed: "
  const UPLOAD: string := "walrus upload failed: "
  const INSERT: string := "insert_vector failed: "
  const INTERNAL: string := "Internal Error: "
  const REQUEST: string := "Sidecar walrus/upload request failed: "
  const ANSWER: string := "Failed to parse walrus/upload response: "
  const ROW: string := "Failed to insert vector: "
  const TRANSFER: string := "walrus upload completed " + "but metadata/" + "transfer failed"

  function UploadText(u: UploadError): string {
    match u
    case RequestFailed(text) => REQUEST + text
    case SidecarError(text) => UPLOAD + text
    case BadAnswer(text) => ANSWER + text
    case TransferFailed => TRANSFER
  }

  /** What the handler classifies. */
  function FailureText(cause: Cause): string {
    match cause
    case Undecodable(e) => DECODE + DecodeText(e)
    case NotUploaded(u) => UPLOAD + (INTERNAL + UploadText(u))
    case NotInserted(text) => INSERT + (INTERNAL + (ROW + text))
  }

  /** The part that some other program wrote, if there is one. */
  function Foreign(cause: Cause): Option<string> {
    match cause
    case Undecodable(_) => None
    case NotUploaded(TransferFailed) => None
    case NotUploaded(u) => Some(u.text)
    case NotInserted(text) => Some(text)
  }

  ghost function Verdict(cause: Cause): E.QueueError {
    E.IntoQueueError(E.Classify(FailureText(cause)))
  }

  // ---------- each text of the program's own is a wrapper ----------

  lemma DecodeIsWrapper()
    ensures E.Wrapper(DECODE)
  {
    hide E.Wrapper;
    E.IsWrapper(DECODE);
  }

  lemma UploadIsWrapper()
    ensures E.Wrapper(UPLOAD)
  {
    hide E.Wrapper;
    E.IsWrapper(UPLOAD);
  }

  lemma InsertIsWrapper()
    ensures E.Wrapper(INSERT)
  {
    hide E.Wrapper;
    E.IsWrapper(INSERT);
  }

  lemma InternalIsWrapper()
    ensures E.Wrapper(INTERNAL)
  {
    hide E.Wrapper;
    E.IsWrapper(INTERNAL);
  }

  lemma RequestIsWrapper()
    ensures E.Wrapper(REQUEST)
  {
    hide E.Wrapper;
    E.IsWrapper(REQUEST);
  }

  lemma AnswerIsWrapper()
    ensures E.Wrapper(ANSWER)
  {
    hide E.Wrapper;
    E.IsWrapper(ANSWER);
  }

  lemma RowIsWrapper()
    ensures E.Wrapper(ROW)
  {
    hide E.Wrapper;
    E.IsWrapper(ROW);
  }

  // ---------- the program's own texts end no job ----------

  predicate Lacks(s: string, c: char) {
    forall i :: 0 <= i < |s| ==> E.LowerChar(s[i]) != c
  }

  lemma LacksAppend(a: string, b: string, c: char)
    requires Lacks(a, c) && Lacks(b, c)
    ensures Lacks(a + b, c)
  {
  }

  /** No Move abort can be read in a text without an r, or without a v. */
  lemma NoAbortWithout(s: string, c: char)
    requires c == 'r' || c == 'v'
    requires Lacks(s, c)
    ensures E.IntoQueueError(E.Classify(s)) == E.Failed
  {
    hide E.Contains, E.Lower;
    var l := E.Lower(s);
    assert c !in l;
    var first, second := E.ABORT_MARKERS[0], E.ABORT_MARKERS[1];
    assert first[7] == 'r' && second[8] == 'r' && first[2] == 'v' && second[2] == 'v';
    assert c in first && c in second;
    E.LacksCharacter(l, first, c);
    E.LacksCharacter(l, second, c);
  }

  lemma PositionLacksR(prefix: string, offset: nat, byte: Byte)
    requires Lacks(prefix, 'r')
    ensures Lacks(prefix + Decimal(byte) + ", offset " + Decimal(offset) + ".", 'r')
  {
    hide Decimal;
    LacksAppend(prefix, Decimal(byte), 'r');
    LacksAppend(prefix + Decimal(byte), ", offset ", 'r');
    LacksAppend(prefix + Decimal(byte) + ", offset ", Decimal(offset), 'r');
    LacksAppend(prefix + Decimal(byte) + ", offset " + Decimal(offset), ".", 'r');
  }

  lemma DecodeTextLacksR(e: DecodeError)
    ensures Lacks(DecodeText(e), 'r')
  {
    hide Decimal;
    match e
    case InvalidByte(offset, byte) => PositionLacksR("Invalid symbol ", offset, byte);
    case InvalidLength(length) => LacksAppend("Invalid input length: ", Decimal(length), 'r');
    case InvalidLastSymbol(offset, byte) => PositionLacksR("Invalid last symbol ", offset, byte);
    case InvalidPadding =>
  }

  lemma DecodeErrorIsRetried(e: DecodeError)
    ensures E.IntoQueueError(E.Classify(DecodeText(e))) == E.Failed
  {
    hide E.Classify, DecodeText;
    DecodeTextLacksR(e);
    NoAbortWithout(DecodeText(e), 'r');
  }

  lemma TransferLacksV()
    ensures Lacks(TRANSFER, 'v')
  {
    var a, b, c := "walrus upload completed ", "but metadata/", "transfer failed";
    LacksAppend(a, b, 'v');
    LacksAppend(a + b, c, 'v');
  }

  lemma TransferIsRetried()
    ensures E.IntoQueueError(E.Classify(TRANSFER)) == E.Failed
  {
    hide E.Classify, Lacks;
    TransferLacksV();
    NoAbortWithout(TRANSFER, 'v');
  }

  /** The verdict on an upload error is that on the foreign text, or to try again. */
  lemma UploadVerdict(u: UploadError)
    ensures E.IntoQueueError(E.Classify(UploadText(u)))
         == if u.TransferFailed? then E.Failed else E.IntoQueueError(E.Classify(u.text))
  {
    hide E.Classify, E.Wrapper, E.IntoQueueError;
    match u
    case RequestFailed(text) =>
      RequestIsWrapper();
      E.WrappingKeepsVerdict(REQUEST, text);
    case SidecarError(text) =>
      UploadIsWrapper();
      E.WrappingKeepsVerdict(UPLOAD, text);
    case BadAnswer(text) =>
      AnswerIsWrapper();
      E.WrappingKeepsVerdict(ANSWER, text);
    case TransferFailed =>
      TransferIsRetried();
  }

  /** The queue gives a job up exactly if another program reports a Move abort, in any mix of
      cases, and no object lock; none of the text put around it matters. */
  lemma AbortsExactlyWhen(cause: Cause)
    ensures Verdict(cause) == E.Abort <==> Foreign(cause).Some? && E.MoveAbortOnly(Foreign(cause).value)
  {
    hide E.Classify, E.Wrapper, E.IntoQueueError, E.MoveAbortOnly;
    match cause
    case Undecodable(e) =>
      DecodeIsWrapper();
      E.WrappingKeepsVerdict(DECODE, DecodeText(e));
      DecodeErrorIsRetried(e);
    case NotUploaded(u) =>
      UploadIsWrapper();
      InternalIsWrapper();
      E.WrappingKeepsVerdict(UPLOAD, INTERNAL + UploadText(u));
      E.WrappingKeepsVerdict(INTERNAL, UploadText(u));
      UploadVerdict(u);
      if !u.TransferFailed? {
        E.AbortsOnMoveAbortOnly(u.text);
      }
    case NotInserted(text) =>
      InsertIsWrapper();
      InternalIsWrapper();
      RowIsWrapper();
      E.WrappingKeepsVerdict(INSERT, INTERNAL + (ROW + text));
      E.WrappingKeepsVerdict(INTERNAL, ROW + text);
      E.WrappingKeepsVerdict(ROW, text);
      E.AbortsOnMoveAbortOnly(text);
  }

  // ---------- deliveries ----------

  /** The cause is one of the failure that the handler ran into. */
  predicate Explains(cause: Cause, failure: Failure) {
    match failure
    case DecodeFailed => cause.Undecodable?
    case UploadFailed => cause.NotUploaded?
    case InsertFailed => cause.NotInserted?
    case NoKey => false
  }

  /** A delivery ends the job exactly if it fails after decoding, on a foreign text with a Move
      abort and no lock. */
  lemma DeliveryAbortsExactlyWhen(t: Tables, walrus: Walrus, p: Payload, jobId: Option<string>, freshId: string,
                                  luck: Fortune, cause: Cause)
    requires var result := Handled(t, walrus, Wallet, p, jobId, freshId, luck).1;
             result.Err? && Explains(cause, result.error)
    ensures Verdict(cause) == E.Abort
       <==> Base64.Decode(p.text).Some? && Foreign(cause).Some? && E.MoveAbortOnly(Foreign(cause).value)
  {
    hide Base64.Decode, Verdict;
    AbortsExactlyWhen(cause);
  }

  /** The tables after several deliveries of one queued job. */
  ghost function Delivered(t: Tables, walrus: Walrus, p: Payload, jobId: Option<string>, freshId: string,
                           lucks: seq<Fortune>): Tables
  {
    if lucks == [] then t
    else
      var n := |lucks| - 1;
      Handled(Delivered(t, walrus, p, jobId, freshId, lucks[..n]), walrus, Wallet, p, jobId, freshId, lucks[n]).0
  }

  /** A ciphertext that is not base64 never succeeds, however often it is delivered and whatever
      else goes well, leaves nothing behind in the vector table, and is each time to be retried. */
  lemma {:induction false} UndecodableIsAlwaysRetried(t: Tables, walrus: Walrus, p: Payload, jobId: Option<string>,
                                                      freshId: string, lucks: seq<Fortune>, luck: Fortune, e: DecodeError)
    requires Base64.Decode(p.text).None?
    ensures var after := Delivered(t, walrus, p, jobId, freshId, lucks);
            && after.vectors == t.vectors
            && Handled(after, walrus, Wallet, p, jobId, freshId, luck).1 == Err(DecodeFailed)
    ensures Verdict(Undecodable(e)) == E.Failed
  {
    hide Base64.Decode, Verdict;
    AbortsExactlyWhen(Undecodable(e));
    if lucks == [] {
    } else {
      UndecodableIsAlwaysRetried(t, walrus, p, jobId, freshId, lucks[..|lucks| - 1], luck, e);
    }
  }
}
