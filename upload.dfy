/**
  One asset's task: `upload_to_cloudinary` with `post_to_cloudinary` and
  `current_timestamp`. The network and the clock are inputs (`TaskIo`): what
  the download returned, what each of the two clock readings was, and whether
  the POST and the decoding of its JSON answer succeeded. Base64 and SHA-1 are
  library functions and come in as parameters (`Library`).
 */
module Upload {
  import opened Numerics
  import opened Assets
  import Signature

  /** The settings read from the environment. */
  datatype Config = Config(
    baseUrl: string,
    authToken: string,
    apiKey: string,
    apiSecret: string,
    cloudinaryUrl: string,
    folderName: string,
    chunkSize: string)

  /** A header or a multipart text field: name and value. */
  type Field = (string, string)

  /** An outbound HTTP request, as far as the program determines it. */
  datatype Request =
    | Get(url: string, headers: seq<Field>)
    | PostMultipart(url: string, form: seq<Field>)

  /** `base64::encode` (RFC 4648 section 4) and SHA-1 (FIPS 180-4). */
  datatype Library = Library(base64: seq<byte> -> string, sha1: seq<byte> -> Signature.Digest)

  /** One reading of `SystemTime::now().duration_since(UNIX_EPOCH)`. */
  datatype Clock = BeforeEpoch | SinceEpoch(secs: u64)

  /** Why a task panics: `expect("Time went backwards")`, or `unwrap` of the `i64` parse. */
  datatype PanicReason = TimeWentBackwards | TimestampOutOfRange

  /** A computation that either finishes with a value or panics. */
  datatype Attempt<T> = Ran(value: T) | Panicked(reason: PanicReason)

  /** What `upload_to_cloudinary` returns when it does not panic. */
  datatype UploadResult = Uploaded | DownloadFailed | PostFailed

  /** What the outside world does during one task. */
  datatype TaskIo = TaskIo(
    download: Option<seq<byte>>,
    signClock: Clock,
    formClock: Clock,
    postSucceeds: bool)

  /** The requests one task sends, in order, and how the task ends. */
  datatype UploadRun = UploadRun(requests: seq<Request>, end: Attempt<UploadResult>)

  const CATALOG_PATH := "api/upload/files"
  const DATA_URL_PREFIX := "data:image/jpg;base64,"

  function AuthorizationHeader(cfg: Config): string {
    "Bearer " + cfg.authToken
  }

  /** The catalog listing: base URL, a slash, then the fixed path. */
  function CatalogRequest(cfg: Config): Request {
    Get(cfg.baseUrl + "/" + CATALOG_PATH,
        [("content-type", "application/json"), ("authorization", AuthorizationHeader(cfg))])
  }

  /** The image download: base URL and the image's `url` with no separator. */
  function ImageRequest(cfg: Config, image: Image): Request {
    Get(cfg.baseUrl + image.url, [("authorization", AuthorizationHeader(cfg))])
  }

  /** `current_timestamp()`: whole seconds since the epoch as decimal text. */
  function CurrentTimestamp(clock: Clock): (r: Attempt<string>)
    ensures r.Panicked? <==> clock.BeforeEpoch?
    ensures r.Panicked? ==> r.reason == TimeWentBackwards
    ensures r.Ran? ==> |r.value| > 0 && AllDigits(r.value) && DigitsValue(r.value) == clock.secs
  {
    match clock
    case BeforeEpoch => Panicked(TimeWentBackwards)
    case SinceEpoch(secs) =>
      DigitsValueOfNatToString(secs);
      Ran(NatToString(secs))
  }

  /** `current_timestamp().parse::<i64>().unwrap()` */
  function SigningTimestamp(clock: Clock): Attempt<i64> {
    match CurrentTimestamp(clock)
    case Panicked(reason) => Panicked(reason)
    case Ran(text) =>
      match ParseI64(text)
      case None => Panicked(TimestampOutOfRange)
      case Some(t) => Ran(t)
  }

  /** The file field: a data URL (RFC 2397) around the base64 text. */
  function DataUrl(lib: Library, bytes: seq<byte>): string {
    DATA_URL_PREFIX + lib.base64(bytes)
  }

  /** The multipart form, field by field in the order the source adds them. */
  function UploadForm(cfg: Config, image: Image, file: string, timestamp: string, signature: string): seq<Field> {
    [("folder", cfg.folderName),
     ("file", file),
     ("public_id", image.name),
     ("api_key", cfg.apiKey),
     ("timestamp", timestamp),
     ("display_name", image.name),
     ("signature", signature),
     ("api_secret", cfg.apiSecret)]
  }

  /**
    One run of `upload_to_cloudinary`: download, encode, sign (first clock
    reading), build the form (second clock reading), post. A failed download
    or post returns an error; a clock before the epoch or a seconds count that
    does not fit `i64` panics.
   */
  function RunUpload(cfg: Config, lib: Library, image: Image, io: TaskIo): (run: UploadRun)
    ensures 1 <= |run.requests| <= 2
    ensures run.requests[0] == ImageRequest(cfg, image)
    ensures |run.requests| == 2 <==> run.end.Ran? && run.end.value != DownloadFailed
    ensures |run.requests| == 2 ==> run.requests[1].PostMultipart? && run.requests[1].url == cfg.cloudinaryUrl
    ensures run.end == Ran(DownloadFailed) <==> io.download.None?
  {
    var fetch := ImageRequest(cfg, image);
    match io.download
    case None => UploadRun([fetch], Ran(DownloadFailed))
    case Some(bytes) =>
      var file := DataUrl(lib, bytes);
      match SigningTimestamp(io.signClock)
      case Panicked(reason) => UploadRun([fetch], Panicked(reason))
      case Ran(ts) =>
        var signature := Signature.GenerateSignature(lib.sha1, cfg.folderName, image.name, image.name,
                                                     ts, cfg.apiSecret);
        match CurrentTimestamp(io.formClock)
        case Panicked(reason) => UploadRun([fetch], Panicked(reason))
        case Ran(stamp) =>
          var form := UploadForm(cfg, image, file, stamp, signature);
          UploadRun([fetch, PostMultipart(cfg.cloudinaryUrl, form)],
                    Ran(if io.postSucceeds then Uploaded else PostFailed))
  }

  /** The value of the first field called `key`, or the empty string. */
  function FieldValue(form: seq<Field>, key: string): string {
    if form == [] then "" else if form[0].0 == key then form[0].1 else FieldValue(form[1..], key)
  }

  function FieldNames(form: seq<Field>): seq<string> {
    seq(|form|, i requires 0 <= i < |form| => form[i].0)
  }

  /**
    The string the destination signs again from the form it received: the
    canonical text of its folder, display name, public id and timestamp fields,
    followed by its secret.
   */
  function DestinationText(form: seq<Field>): string {
    Signature.CanonicalText(FieldValue(form, "folder"), FieldValue(form, "display_name"),
                            FieldValue(form, "public_id"), FieldValue(form, "timestamp"),
                            FieldValue(form, "api_secret"))
  }

  /** The form's signature field is the digest of what the destination signs again. */
  predicate SignatureMatchesForm(sha1: seq<byte> -> Signature.Digest, form: seq<Field>) {
    FieldValue(form, "signature") == Signature.SignText(sha1, DestinationText(form))
  }

  /**
    The clock is read and rendered once for signing; the text parses as `i64`
    exactly when the seconds count is below 2^63, and then the signed value
    renders back to the same text `current_timestamp` returned.
   */
  lemma SigningTimestampAgrees(clock: Clock)
    ensures SigningTimestamp(clock).Ran? <==> clock.SinceEpoch? && clock.secs < I64_LIMIT
    ensures SigningTimestamp(clock).Ran? ==>
      SigningTimestamp(clock).value == clock.secs
      && I64ToString(SigningTimestamp(clock).value) == CurrentTimestamp(clock).value
  {
    if clock.SinceEpoch? {
      SecondsRoundTrip(clock.secs);
    }
  }

  /**
    The download URL is the base URL followed directly by the image's `url`,
    which can be split off again; the listing URL puts a slash between the
    base URL and its path. Both requests carry the bearer token.
   */
  lemma RequestUrls(cfg: Config, image: Image)
    ensures var url := ImageRequest(cfg, image).url;
      && |url| == |cfg.baseUrl| + |image.url|
      && url[..|cfg.baseUrl|] == cfg.baseUrl
      && url[|cfg.baseUrl|..] == image.url
    ensures CatalogRequest(cfg).url == cfg.baseUrl + "/api/upload/files"
    ensures ImageRequest(cfg, image).headers == [("authorization", "Bearer " + cfg.authToken)]
    ensures ("authorization", "Bearer " + cfg.authToken) in CatalogRequest(cfg).headers
  {
    assert CatalogRequest(cfg).headers[1] == ("authorization", "Bearer " + cfg.authToken);
  }

  /** The file field is the data URL prefix followed by the base64 text, which can be split off again. */
  lemma DataUrlParts(lib: Library, bytes: seq<byte>)
    ensures var file := DataUrl(lib, bytes);
      && |file| == 22 + |lib.base64(bytes)|
      && file[..22] == "data:image/jpg;base64,"
      && file[22..] == lib.base64(bytes)
  {
  }

  /** `FieldValue` finds the first field with the key. */
  lemma {:induction false} FieldValueAt(form: seq<Field>, key: string, i: nat)
    requires i < |form| && form[i].0 == key
    requires forall j :: 0 <= j < i ==> form[j].0 != key
    ensures FieldValue(form, key) == form[i].1
    decreases i
  {
    if i > 0 {
      FieldValueAt(form[1..], key, i - 1);
    }
  }

  /** The form has its eight fields in order, each under a name of its own. */
  lemma UploadFormFields(cfg: Config, image: Image, file: string, timestamp: string, signature: string)
    ensures var form := UploadForm(cfg, image, file, timestamp, signature);
      && FieldNames(form)
         == ["folder", "file", "public_id", "api_key", "timestamp", "display_name", "signature", "api_secret"]
      && FieldValue(form, "folder") == cfg.folderName
      && FieldValue(form, "file") == file
      && FieldValue(form, "public_id") == image.name
      && FieldValue(form, "api_key") == cfg.apiKey
      && FieldValue(form, "timestamp") == timestamp
      && FieldValue(form, "display_name") == image.name
      && FieldValue(form, "signature") == signature
      && FieldValue(form, "api_secret") == cfg.apiSecret
  {
    var form := UploadForm(cfg, image, file, timestamp, signature);
    FieldValueAt(form, "folder", 0);
    FieldValueAt(form, "file", 1);
    FieldValueAt(form, "public_id", 2);
    FieldValueAt(form, "api_key", 3);
    FieldValueAt(form, "timestamp", 4);
    FieldValueAt(form, "display_name", 5);
    FieldValueAt(form, "signature", 6);
    FieldValueAt(form, "api_secret", 7);
  }

  /**
    How a task ends, case by case. A failed download returns an error before
    the clock is read. Otherwise the task panics with `TimeWentBackwards` when
    the clock reading for signing is before the epoch, or when that reading is
    usable and the one for the form is before the epoch. It panics with
    `TimestampOutOfRange` when the signing reading is 2^63 seconds or more. It
    posts exactly when neither happens.
   */
  lemma RunUploadEnds(cfg: Config, lib: Library, image: Image, io: TaskIo)
    ensures var run := RunUpload(cfg, lib, image, io);
      var signable := io.signClock.SinceEpoch? && io.signClock.secs < I64_LIMIT;
      && (run.end == Panicked(TimeWentBackwards)
          <==> io.download.Some? && (io.signClock.BeforeEpoch? || (signable && io.formClock.BeforeEpoch?)))
      && (run.end == Panicked(TimestampOutOfRange)
          <==> io.download.Some? && io.signClock.SinceEpoch? && io.signClock.secs >= I64_LIMIT)
      && (run.end.Panicked? <==> io.download.Some? && (!signable || io.formClock.BeforeEpoch?))
      && (|run.requests| == 2 <==> io.download.Some? && signable && io.formClock.SinceEpoch?)
  {
    SigningTimestampAgrees(io.signClock);
  }

  /**
    A run whose download succeeds and whose clock readings are usable posts the
    form built from the encoded file, the second reading and the signature of
    the first reading.
   */
  lemma RunUploadPosts(cfg: Config, lib: Library, image: Image, io: TaskIo)
    requires io.download.Some? && io.signClock.SinceEpoch? && io.signClock.secs < I64_LIMIT
    requires io.formClock.SinceEpoch?
    ensures var run := RunUpload(cfg, lib, image, io);
      && run.end == Ran(if io.postSucceeds then Uploaded else PostFailed)
      && |run.requests| == 2
      && run.requests[1]
         == PostMultipart(cfg.cloudinaryUrl,
                          UploadForm(cfg, image, DataUrl(lib, io.download.value), NatToString(io.formClock.secs),
                                     Signature.GenerateSignature(lib.sha1, cfg.folderName, image.name, image.name,
                                                                 io.signClock.secs, cfg.apiSecret)))
  {
    SigningTimestampAgrees(io.signClock);
  }

  /**
    The timestamp is read from the clock twice, once for signing (`signed`) and
    once for the form (`posted`). The string that was signed is the string the
    destination rebuilds from the form exactly when both readings gave the same
    second, and in that case the signature matches the form.
   */
  lemma SignedTextMatchesFormIffSameSecond(cfg: Config, image: Image, file: string, signature: string,
                                           signed: nat, posted: nat)
    requires signed < I64_LIMIT
    ensures (Signature.StringToHash(cfg.folderName, image.name, image.name, signed, cfg.apiSecret)
             == DestinationText(UploadForm(cfg, image, file, NatToString(posted), signature)))
            <==> signed == posted
  {
    DestinationOfForm(cfg, image, file, NatToString(posted), signature);
    SecondsRoundTrip(signed);
    Signature.CanonicalTextDeterminesTimestamp(cfg.folderName, image.name, image.name,
                                               NatToString(signed), NatToString(posted), cfg.apiSecret);
    NatToStringInjective(signed, posted);
  }

  /**
    When both readings gave the same second, the signature in the form is the
    one the destination computes from the form's own fields.
   */
  lemma SameSecondSignatureMatches(cfg: Config, image: Image, sha1: seq<byte> -> Signature.Digest,
                                   file: string, secs: nat)
    requires secs < I64_LIMIT
    ensures SignatureMatchesForm(sha1, UploadForm(cfg, image, file, NatToString(secs),
      Signature.GenerateSignature(sha1, cfg.folderName, image.name, image.name, secs, cfg.apiSecret)))
  {
    var text := Signature.StringToHash(cfg.folderName, image.name, image.name, secs, cfg.apiSecret);
    var sig := Signature.GenerateSignature(sha1, cfg.folderName, image.name, image.name, secs, cfg.apiSecret);
    var form := UploadForm(cfg, image, file, NatToString(secs), sig);
    DestinationOfForm(cfg, image, file, NatToString(secs), sig);
    SignedTextMatchesFormIffSameSecond(cfg, image, file, sig, secs, secs);
  }

  /**
    A task whose two clock readings agree and that posts at all posts a form
    whose signature is the one the destination computes from the form's own
    fields.
   */
  lemma SameClockRunMatches(cfg: Config, lib: Library, image: Image, io: TaskIo)
    requires io.formClock == io.signClock
    ensures var run := RunUpload(cfg, lib, image, io);
      |run.requests| == 2 ==> SignatureMatchesForm(lib.sha1, run.requests[1].form)
  {
    if |RunUpload(cfg, lib, image, io).requests| == 2 {
      RunUploadEnds(cfg, lib, image, io);
      RunUploadPosts(cfg, lib, image, io);
      SameSecondSignatureMatches(cfg, image, lib.sha1, DataUrl(lib, io.download.value), io.signClock.secs);
    }
  }

  /** What the destination reads back from the form: the signature field and the text it signs again. */
  lemma DestinationOfForm(cfg: Config, image: Image, file: string, timestamp: string, signature: string)
    ensures var form := UploadForm(cfg, image, file, timestamp, signature);
      && FieldValue(form, "signature") == signature
      && DestinationText(form)
         == Signature.CanonicalText(cfg.folderName, image.name, image.name, timestamp, cfg.apiSecret)
  {
    UploadFormFields(cfg, image, file, timestamp, signature);
  }
}
