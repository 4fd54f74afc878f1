# strapi-to-cloudinary, modelled in Dafny

`strapi-to-cloudinary` copies every media asset of a Strapi catalog to Cloudinary. First it fetches the
catalog listing. Then it splits the assets into batches of `CHUNK_SIZE`. For each batch, it spawns one
task per asset and joins all of them. Each task downloads the image, encodes it as a base64 data URL,
signs the upload and posts a multipart form. A report line is printed for every join result.

This project models the deterministic core of `src/main.rs`:

- `numerics.dfy` (`Numerics`):
  - the machine integer ranges;
  - decimal rendering (`to_string`) and parsing (`str::parse::<i64>`, `str::parse::<usize>`) of integers;
  - the round trips between rendering and parsing.
- `utf8.dfy` (`Utf8`): the UTF-8 bytes of a string (RFC 3629), with a decoder that shows the encoding is lossless.
- `hex.dfy` (`Hex`): the `{:02x}` rendering of a digest, with its decoder.
- `signature.dfy` (`Signature`) models `generate_signature`:
  - the four `(key, value)` pairs;
  - Rust's ordering of `str` and of pairs;
  - the sort, modelled as an insertion sort and proved equal to every other way of sorting;
  - the `key=value` join with `&`, followed by the secret;
  - SHA-1 over the UTF-8 bytes and the hex rendering.
- `chunking.dfy` (`Chunking`): `slice::chunks(n)`.
- `assets.dfy` (`Assets`): the `Format`, `Formats` and `Image` records.
- `upload.dfy` (`Upload`):
  - `current_timestamp`;
  - the `i64` parse of its text;
  - the requests built by `upload_to_cloudinary`, as a function of what the network and the clock do
    during one task;
  - what the destination reads back from the form.
- `migration.dfy` (`Migration`): `main` after loading its settings, written as methods with loops that
  produce an event trace:
  - the catalog request;
  - an abort;
  - for every asset, a spawn event (carrying the requests its task sends) and a report event (carrying
    its join outcome).

  `MigrationTrace` is the trace as a function. `RunMigration` is proved to produce it. The lemmas about
  the trace state what the loop guarantees.

SHA-1 (FIPS 180-4) and `base64::encode` (RFC 4648 section 4) are library code. They enter as
function-typed parameters (`Upload.Library`), and SHA-1 returns a 20-byte `Signature.Digest`. The
seconds count of each clock reading, the download and the outcome of the POST are inputs (`Upload.TaskIo`).

## Model

| member | source | states |
|---|---|---|
| Numerics.NatToString | src/main.rs:253 | the decimal text of a seconds count is non-empty and made of digits only |
| Numerics.DigitsValueOfNatToString | src/main.rs:253 | reading the rendered digits back gives the number |
| Numerics.NatToStringInjective | src/main.rs:253 | two counts render to the same text exactly when they are equal |
| Numerics.NoLeadingZero | src/main.rs:253 | the rendering starts with `0` exactly for zero, and zero renders as `"0"` |
| Numerics.CanonicalDigits | src/main.rs:253 | every digit string without a leading zero is the rendering of its own value |
| Numerics.I64RoundTrip | src/main.rs:219 | `str::parse::<i64>` reads back every `i64` that `i64::to_string` renders, negative ones included |
| Numerics.SecondsRoundTrip | src/main.rs:177 | a rendered seconds count parses as `i64` exactly when it is below 2^63; it then gives the same value, and `i64::to_string` of that value gives the same text |
| Numerics.UsizeRoundTrip | src/main.rs:88 | `str::parse::<usize>` reads back the decimal text of every `usize` |
| Numerics.I64ToString | src/main.rs:219 | `i64::to_string`: a leading `-` exactly for a negative value, and digits everywhere else, with no leading zero except for `"0"` itself; `Numerics.I64RoundTrip` and `Numerics.SecondsRoundTrip` relate it to the parse |
| Numerics.ParseI64 | src/main.rs:177 | `str::parse::<i64>` of a seconds text, its properties stated by `Numerics.I64RoundTrip` and `Numerics.SecondsRoundTrip` (success exactly below 2^63, same value back) |
| Numerics.ParseUsize | src/main.rs:88 | `str::parse::<usize>` of `CHUNK_SIZE`, its round trip stated by `Numerics.UsizeRoundTrip` |
| Utf8.EncodeChar | src/main.rs:237 | a character becomes the shortest form for its range (1 byte below U+0080, 2 below U+0800, 3 below U+10000, else 4); a multi-byte lead is at least 0xC0 and announces the length, every continuation byte is in 0x80-0xBF, and decoding gives back the character's scalar value |
| Utf8.Encode2 | src/main.rs:237 | the two-byte form has a lead byte of at least 0xC0 announcing 2 bytes and continuation bytes in 0x80-0xBF, and decodes to its scalar value |
| Utf8.Encode3 | src/main.rs:237 | the three-byte form has a lead byte of at least 0xC0 announcing 3 bytes and continuation bytes in 0x80-0xBF, and decodes to its scalar value |
| Utf8.Encode4 | src/main.rs:237 | the four-byte form has a lead byte of at least 0xC0 announcing 4 bytes and continuation bytes in 0x80-0xBF, and decodes to its scalar value |
| Utf8.Encode | src/main.rs:237 | a string of `k` characters becomes between `k` and `4k` bytes |
| Utf8.DecodeEncode | src/main.rs:237 | decoding the bytes of `as_bytes` gives the string back |
| Utf8.EncodeInjective | src/main.rs:237 | two strings have the same bytes exactly when they are equal |
| Utf8.EncodeAppend | src/main.rs:237 | the bytes of a concatenation are the concatenation of the bytes |
| Hex.HexDigit | src/main.rs:241 | a nibble becomes a lowercase hex digit whose value is the nibble |
| Hex.ByteToHex | src/main.rs:241 | `{:02x}` of a byte is two lowercase hex digits, high nibble first, whose value is the byte |
| Hex.Encode | src/main.rs:239-242 | two lowercase hex characters per digest byte, in byte order: characters `2i` and `2i+1` render byte `i` |
| Hex.DecodeEncode | src/main.rs:239-242 | reading the rendering back in pairs gives the digest bytes |
| Hex.EncodeInjective | src/main.rs:239-242 | two digests render the same exactly when they are equal |
| Signature.StrLe | src/main.rs:227 | Rust's `Ord` on `str`, lexicographic; `Signature.StrLeTotal`, `StrLeAntisymmetric`, `StrLeTransitive` and `StrLeReflexive` show it is a total order |
| Signature.ParamLe | src/main.rs:227 | the derived `Ord` on a `(&str, &str)` pair, key first, then value; `Signature.ParamLeTotal`, `ParamLeAntisymmetric` and `ParamLeTransitive` show it is a total order |
| Signature.StrLeTotal | src/main.rs:227 | any two strings are comparable in Rust's `str` order |
| Signature.StrLeAntisymmetric | src/main.rs:227 | strings that are each at most the other are equal |
| Signature.StrLeTransitive | src/main.rs:227 | the `str` order is transitive |
| Signature.StrLeReflexive | src/main.rs:227 | every string is at most itself |
| Signature.ParamLeTotal | src/main.rs:227 | any two pairs are comparable in the derived tuple order |
| Signature.ParamLeAntisymmetric | src/main.rs:227 | the tuple order is antisymmetric |
| Signature.ParamLeTransitive | src/main.rs:227 | the tuple order is transitive |
| Signature.Insert | src/main.rs:227 | inserting into a sorted list keeps it sorted and adds exactly that pair |
| Signature.Sort | src/main.rs:227 | `params.sort()` returns a sorted permutation of its input |
| Signature.HeadIsLeast | src/main.rs:227 | the first pair of a sorted list is at most every pair in it |
| Signature.SortedUnique | src/main.rs:227 | two sorted lists with the same pairs are equal, so every sorting algorithm gives the same result |
| Signature.SortIsUnique | src/main.rs:227 | `Sort` returns the only sorted arrangement of its input |
| Signature.Params | src/main.rs:220-225 | the four pairs in the order the source lists them; `Signature.PermutedParams` and `Signature.SortParams` relate them to key order |
| Signature.SortedParamsSorted | src/main.rs:220-227 | the four pairs in the order `display_name`, `folder`, `public_id`, `timestamp` are sorted |
| Signature.PermutedParams | src/main.rs:220-227 | that key order holds the same four pairs as the order the source lists them in |
| Signature.SortParams | src/main.rs:220-227 | sorting the four pairs puts them in key order, whatever their values |
| Signature.FormatParam | src/main.rs:231 | `format!("{}={}", k, v)` of one pair, written out for the four sorted pairs by `Signature.JoinFour` and `Signature.SpellOut` |
| Signature.JoinParams | src/main.rs:229-233 | `map(format!("{}={}")).join("&")`, written out for the four pairs by `Signature.JoinFour` |
| Signature.CanonicalText | src/main.rs:219-234 | the text to hash for a rendered timestamp; `Signature.CanonicalTextForm` spells it out and the `CanonicalTextDetermines…` lemmas show it determines each value |
| Signature.StringToHash | src/main.rs:219-234 | the text `generate_signature` hashes, timestamp rendered by `i64::to_string`; spelled out by `Signature.StringToHashForm` |
| Signature.JoinFour | src/main.rs:229-233 | joining four pairs writes `key=value` for each, separated by `&` |
| Signature.SpellOut | src/main.rs:229-234 | the joined key-ordered pairs and the secret read as one literal text with the values in between |
| Signature.CanonicalTextForm | src/main.rs:219-234 | the text to hash is `display_name=…&folder=…&public_id=…&timestamp=…` followed directly by the secret |
| Signature.StringToHashForm | src/main.rs:219-234 | the same, with the timestamp rendered by `i64::to_string` |
| Signature.CanonicalOrderIndependent | src/main.rs:220-234 | any arrangement of the four pairs before sorting gives the same text |
| Signature.CanonicalTextDeterminesTimestamp | src/main.rs:219-234 | with the other values fixed, two texts are equal exactly when their timestamps are |
| Signature.CanonicalTextDeterminesFolder | src/main.rs:219-234 | with the other values fixed, two texts are equal exactly when their folders are |
| Signature.CanonicalTextDeterminesDisplayName | src/main.rs:219-234 | with the other values fixed, two texts are equal exactly when their display names are |
| Signature.CanonicalTextDeterminesPublicId | src/main.rs:219-234 | with the other values fixed, two texts are equal exactly when their public ids are |
| Signature.CanonicalTextDeterminesSecret | src/main.rs:234 | with the other values fixed, two texts are equal exactly when their secrets are |
| Signature.SignText | src/main.rs:236-242 | SHA-1 of the UTF-8 bytes rendered as hex is 40 lowercase hex characters; `Signature.SignatureIsHexDigest` shows they decode to the digest |
| Signature.GenerateSignature | src/main.rs:212-245 | the signature is always 40 lowercase hex characters |
| Signature.SignatureIsHexDigest | src/main.rs:236-244 | the signature has 40 lowercase hex characters, and decoding them gives the SHA-1 digest of the UTF-8 bytes of the text |
| Signature.SignatureDeterminedByDigest | src/main.rs:212-245 | two signatures are equal exactly when the digests of their texts are, so equal arguments give equal signatures |
| Signature.ExampleTimestampText | src/main.rs:219 | 1700000000 renders as `"1700000000"` |
| Signature.ExampleStringToHash | src/main.rs:219-234 | a worked example of the text to hash |
| Chunking.Chunks | src/main.rs:95-97 | the chunks concatenate to the list; each is non-empty and holds at most `n` assets; all but the last hold exactly `n` |
| Chunking.FlattenAppend | src/main.rs:95-97 | concatenating two lists of chunks concatenates their contents |
| Chunking.ChunkCount | src/main.rs:95-97 | there are `ceil(len / n)` chunks, so an empty list has none |
| Chunking.ChunksTail | src/main.rs:95-97 | after the first chunk come the chunks of the rest of the list |
| Chunking.ChunkAt | src/main.rs:95-97 | chunk `k` is the slice from `k * n` to `k * n + n`, cut short by the end of the list |
| Chunking.ExampleFiveByTwo | src/main.rs:95-97 | five assets in chunks of two make chunks of sizes 2, 2 and 1 |
| Upload.RunUpload | src/main.rs:159-193 | a task always sends the download first and at most one more request, a POST to the destination URL. It posts exactly when it ends without a panic and without a download error. It returns the download error exactly when the download failed |
| Upload.RunUploadEnds | src/main.rs:162-191 | how a task ends: `TimeWentBackwards` exactly when the download succeeded and the signing reading is before the epoch, or it is usable and the form's reading is before the epoch; `TimestampOutOfRange` exactly when the download succeeded and the signing reading is 2^63 seconds or more; a POST exactly when the download succeeded and both readings are usable |
| Upload.AuthorizationHeader | src/main.rs:75 | `Bearer ` followed by the token; `Upload.RequestUrls` shows both GET requests carry it |
| Upload.CatalogRequest | src/main.rs:74-80 | the listing GET with its JSON content type and bearer header; its URL is stated by `Upload.RequestUrls` |
| Upload.ImageRequest | src/main.rs:159-165 | the image GET with the bearer header; its URL is stated by `Upload.RequestUrls` |
| Upload.CurrentTimestamp | src/main.rs:248-254 | panics with "Time went backwards" exactly for a clock before the epoch; otherwise a non-empty digit string whose value is the seconds count |
| Upload.SigningTimestamp | src/main.rs:177 | the parse-and-unwrap of the clock text, its properties stated by `Upload.SigningTimestampAgrees` |
| Upload.DataUrl | src/main.rs:170-171 | the file field, split back into prefix and base64 text by `Upload.DataUrlParts` |
| Upload.UploadForm | src/main.rs:181-189 | the multipart form, whose field names and values `Upload.UploadFormFields` states |
| Upload.RequestUrls | src/main.rs:159-164 | the download URL is the base URL directly followed by the image's `url`, while the listing URL (src/main.rs:74-79) has a slash before its path; both requests carry the bearer token |
| Upload.DataUrlParts | src/main.rs:170-171 | the file field is `data:image/jpg;base64,` followed by the base64 text of the downloaded bytes |
| Upload.SigningTimestampAgrees | src/main.rs:177 | the signing timestamp exists exactly when the clock is past the epoch and below 2^63 seconds; it then equals the seconds count, and its `i64` text is the text `current_timestamp` returned |
| Upload.UploadFormFields | src/main.rs:181-189 | the form's fields are named `folder`, `file`, `public_id`, `api_key`, `timestamp`, `display_name`, `signature`, `api_secret`, in that order, with the folder, file, image name, key, timestamp, image name, signature and secret as values |
| Upload.DestinationOfForm | src/main.rs:181-189 | what the destination reads back from the form is the signature and the canonical text of the form's folder, image name and timestamp |
| Upload.RunUploadPosts | src/main.rs:159-191 | a task with a good download and usable clocks posts exactly the form built from the data URL of the bytes, the second clock reading and the signature of the first |
| Upload.SignedTextMatchesFormIffSameSecond | src/main.rs:173-186 | the signed text equals the text the destination rebuilds from the form exactly when both clock readings gave the same second |
| Upload.SameSecondSignatureMatches | src/main.rs:173-189 | when both readings gave the same second, the form's signature is the one the destination computes from the form's own fields |
| Upload.SameClockRunMatches | src/main.rs:173-191 | when a task's two clock readings agree, any form it posts carries the signature the destination computes from that form's fields |
| Migration.Discard | src/main.rs:111-123 | the task's `JoinHandle<()>` keeps only whether the upload panicked, and the reason, not its `Result` |
| Migration.JoinOutcome | src/main.rs:130-134 | a join result is reported as a success exactly when the handle holds no panic; a failure carries the panic's reason |
| Migration.Task | src/main.rs:111-123 | the body of one spawned task: `upload_to_cloudinary` with the run's settings and that task's inputs |
| Migration.SpawnEvents | src/main.rs:100-125 | the spawns of one batch, consumed by `Migration.SpawnBatch` and described by `Migration.BatchIndices` and `Migration.BatchDescribes` |
| Migration.ReportEvents | src/main.rs:128-135 | the report lines of one batch, consumed by `Migration.ReportBatch` and described by `Migration.BatchIndices` and `Migration.BatchDescribes` |
| Migration.BatchEvents | src/main.rs:100-135 | one iteration of the chunk loop: the batch's spawns, then its reports; `Migration.BatchLayout`, `Migration.BatchIndices` and `Migration.BatchDescribes` state its properties |
| Migration.DispatchTrace | src/main.rs:99-135 | the batches in order; `Migration.DispatchIndices`, `Migration.DispatchDescribes` and `Migration.DispatchBarrier` state its properties |
| Migration.MigrationTrace | src/main.rs:83-146 | the whole run as a trace; `Migration.EachAssetOnce`, `Migration.AbortsSpawnNothing` and `Migration.MigrationEvents` state its properties |
| Migration.SpawnBatch | src/main.rs:100-125 | spawning a batch records one spawn per asset, in order, numbered from the batch's first index; each handle holds the end of that asset's upload |
| Migration.ReportBatch | src/main.rs:128-135 | the report loop records one line per handle, in spawn order, from the handle alone |
| Migration.DispatchPrefix | src/main.rs:99-135 | the trace of the first `k + 1` batches extends that of the first `k` by the events of batch `k` |
| Migration.Dispatch | src/main.rs:99-136 | the loop over the batches produces the trace of all the batches, each batch's indices continuing from the previous one |
| Migration.RunMigration | src/main.rs:83-146 | `main` produces the migration trace: the catalog request, then an abort or the batches |
| Migration.BatchIndices | src/main.rs:100-135 | a batch spawns, and reports, each of its indices once and in order |
| Migration.DispatchIndices | src/main.rs:99-135 | the batches together spawn, and report, the indices `base` up to the number of assets, once each and in order |
| Migration.MigrationDispatches | src/main.rs:88-99 | a listed catalog with a positive chunk size sends the catalog request and then dispatches its chunks |
| Migration.EachAssetOnce | src/main.rs:95-135 | every asset of the catalog is spawned exactly once and reported exactly once, in catalog order, so there are as many report lines as assets |
| Migration.AbortsSpawnNothing | src/main.rs:76-145 | the catalog request comes first. An unreachable or malformed catalog, a chunk size that does not parse, and a chunk size of zero each end the trace with their abort, and no task is spawned or reported |
| Migration.EmptyCatalog | src/main.rs:95-99 | an empty catalog with a valid chunk size sends the catalog request and nothing else |
| Migration.BatchLayout | src/main.rs:100-135 | all spawns of a batch come before all of its reports |
| Migration.BatchDescribes | src/main.rs:100-135 | each event of a batch describes the task of the asset with its index |
| Migration.DispatchDescribes | src/main.rs:99-135 | each event of the dispatch describes the task of the catalog asset with its index |
| Migration.DispatchBarrier | src/main.rs:127-128 | a report precedes a spawn exactly when the reported asset lies in an earlier batch |
| Migration.MigrationEvents | src/main.rs:99-135 | in a dispatching run, every event after the catalog request describes its asset's task, and each batch is joined in full before the next one is spawned |
| Migration.ReportIgnoresUploadResult | src/main.rs:112-133 | a report says "successful" exactly when the task did not panic, so a failed download or POST is reported as a success |

## Left out

- HTTP is not modelled: the catalog GET, the image download and the multipart POST are network I/O. The model records each request the program builds, and takes the responses as inputs (`Migration.Catalog`, `Upload.TaskIo`).
- The JSON deserialisation of the catalog (serde) and of the POST's answer is not modelled; only its success or failure is.
- Loading the settings with `dotenv` and `env::var` is not modelled. The settings are a parameter (`Upload.Config`). The `expect` panics for missing variables are left out.
- The `size: f64` fields of `Format` and `Image` are left out: floating point, and nothing reads them.
- `tokio::spawn` and `join_all` are not modelled as concurrency. The tasks of a batch run one after another, which is faithful because they share no mutable state. The order in which their requests interleave on the network is not captured.
- SHA-1 and base64 are parameters, not definitions. No property of theirs is used beyond SHA-1's 20-byte output.
- The system clock is an input: one reading per call of `current_timestamp`, two per task.
- `println!` formatting is not modelled. Each printed line is an event carrying its outcome or abort reason.
- `Numerics.ParseI64` and `Numerics.ParseUsize` do not tell the kinds of parse error apart (empty, invalid digit, overflow): only whether the parse succeeded changes control flow. The kind appears only in the `{:?}` text printed at src/main.rs:91 and in the `unwrap` panic message at src/main.rs:177, and `println!` formatting and panic messages are left out.
- `Numerics.usize` assumes a 64-bit target.
- `Utf8.Decode` is a left inverse of the encoder used for the proofs; it does not reject every ill-formed byte sequence.
- `Migration.RunMigration` treats a chunk size of zero as an abort (`ChunkSizeZero`), standing for the panic of `slice::chunks(0)`, instead of requiring a positive chunk size of its caller. `Chunking.Chunks` itself requires `n > 0`.
- Each task's inputs are chosen by the asset's position in the catalog (`io(i)`). The source has no such index; it only makes the inputs of different tasks independent.
