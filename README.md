# rspb core in Dafny

A model of the storage and request logic of rspb, a small paste-bin server
written in Rust on top of the sled key-value engine.

- **Record store writes** (`src/model.rs`). A record (`DateBaseItem`) has a
  hash: the blake3 hex digest of its text. Its short code is the first four
  hex characters of that hash. `add_record` writes the record into three
  sled trees, one after another: data (hash → serialized record), short
  (short code → hash bytes) and custom (custom URL → hash bytes). Each write
  is `insert_when_not_exist`, a `compare_and_swap` against "absent". The model
  keeps two cases of that call apart, as the code does. A key that is already
  present makes the swap report a mismatch inside its `Ok` value. The code
  ignores that, so nothing is written and the call returns `Ok`. Only an
  engine failure (the outer `Err`) comes back, as `Err(Existed)`. The three
  writes are separate calls, not a transaction: a later failure leaves the
  earlier writes in place. The trees are `map` fields of the class
  `Model.DataTrees`, and its methods are proved against the functions
  `InsertStep` and `AddRecordSpec`.
- **Request handlers** (`src/controller.rs`). `upload` takes the first
  multipart part named `c` or `content` and computes the short code of that
  part's digest. It stores the part under the code unless the code is taken.
  The answer is the six-line response text with 201 Created, or with
  302 Found when the code was taken; it is "invalid" with 400 when there is
  no such part. `view_data` parses the key. A key without '.' is looked up
  lower-cased. A key with '.' is looked up by the text before its first
  '.', and the text after its last '.' picks the highlighting. The answer is
  the stored bytes with 200, or "not found" with 404. The two `to_string`
  serialisers are modelled as well. The handlers work on a single sled tree
  (`Controller.Db`), as their signatures say.
- **Base-32 encoding** (`src/base32.rs`). The bytes are read as a
  little-endian unsigned integer, which is printed in radix 32 with the
  digits `0-9a-v`. The same radix printer (`Numerals.ToStrRadix`, radix 10)
  gives the decimal `size` field of the upload response.

Foreign code stays abstract. blake3 followed by `to_hex` is a parameter of
type `Digests.Hasher`, which returns 64 lower-case hex characters. bincode is
a parameter `DateBaseItem -> seq<byte>`. The clock is the formatted date
string `now`. An engine failure is an oracle parameter: `engineFails`, the
set `failing` of trees whose call fails, or `readFails`.

The code keys records by their hash, uses 4-hex-character short codes,
makes three separate inserts, reports no conflict for a present key, and has
no record ids, expiry, update or delete; the model follows the code.

## Model

| member | source | states |
|---|---|---|
| `Base32.Encode` | src/base32.rs:2-5 | The output is never empty. Every character is in `0-9a-v`. It has no leading '0' unless it is exactly "0". It is a canonical radix-32 numeral. |
| `Base32.EncodeRoundTrip` | src/base32.rs:3-4 | Reading the output as a base-32 numeral gives the little-endian value of the input bytes. |
| `Base32.EncodeUnique` | src/base32.rs:3-4 | Any canonical base-32 numeral of the input's value is the output itself. |
| `Base32.EncodeInjective` | src/base32.rs:3-4 | Two inputs give the same output if and only if their little-endian values are equal. |
| `Base32.EncodeZero` | src/base32.rs:3-4 | The output is "0" if and only if every input byte is zero, the empty input included. |
| `Base32.EncodeTrailingZeros` | src/base32.rs:3 | Appending zero bytes to the input does not change the output. |
| `Base32.FromBytesLe` | src/base32.rs:3 | The little-endian value of `k` bytes is below 256^k, and its lowest base-256 digit is the first byte. Its link to the output is `EncodeRoundTrip`, `EncodeZero` and `EncodeTrailingZeros`. |
| `Numerals.ToStrRadix` | src/base32.rs:4 | For radix 2 to 36: a non-empty string of digits below the radix, with a leading '0' exactly when the number is 0, and then the whole numeral is "0". |
| `Numerals.ParseToStrRadix` | src/base32.rs:4 | Parsing the printed numeral gives the number back. |
| `Numerals.ToStrRadixParse` | src/base32.rs:4 | A canonical numeral is exactly what the printer writes for its value. |
| `Numerals.ToStrRadixInjective` | src/base32.rs:4 | Two numbers get the same numeral if and only if they are equal. |
| `Digests.Short` | src/model.rs:74 | The short code has four characters, is a prefix of the digest, and is lower-case hex. |
| `Digests.ShortIsPlain` | src/controller.rs:76 | A short code is ASCII and contains no '.', no line break and no upper-case letter. |
| `Model.AsRef` | src/model.rs:13-20 | Every tree name is one byte, below 3. |
| `Model.AsRefInjective` | src/model.rs:13-20 | Two trees get the same name only if they are the same tree. |
| `Model.GetData` | src/model.rs:50-55 | The result is the text the item carries, whichever variant it is. |
| `Model.GetDataIgnoresVariant` | src/model.rs:50-55 | `Code(t)` and `ShortLink(t)` both give `t`: a corollary of `GetData`'s contract, spelled out per constructor. |
| `Model.NewDateBaseItem` | src/model.rs:68-82 | The hash is 64 hex characters: the digest of the UTF-8 bytes of the item's data. The short code is the 4-character prefix of the hash. The text, custom URL and destroy time are stored unchanged. |
| `Model.NewDateBaseItemAddress` | src/model.rs:73-74 | Items whose texts carry the same data get the same hash and short code, whatever their variant, URL or destroy time. |
| `Model.CodeAndLinkShareAddress` | src/model.rs:73 | `Code(t)` and `ShortLink(t)` get the same hash: the corollary of `NewDateBaseItemAddress` with equal URL and destroy time. |
| `Model.CompareAndSwapAbsent` | src/model.rs:90 | The swap against "absent" keeps every present entry. It changes at most `key`. Afterwards `key` holds its old value if it had one, and `value` otherwise. |
| `Model.InsertStep` | src/model.rs:85-95 | The call returns `Err(Existed)` exactly on engine failure, and then nothing changes. A present key means no change and `Ok`. Otherwise the key maps to `value`. Other trees and other keys are untouched, and nothing is overwritten. |
| `Model.AddRecordSpec` | src/model.rs:97-109 | The three inserts in order with early return. Its contract: no entry of any tree is removed or replaced. The lemmas `AddRecordOutcome` through `AddRecordPresentKeysIgnored` state the rest. |
| `Model.AddRecordOutcome` | src/model.rs:97-109 | The call returns `Ok` if and only if none of the inserts it makes (data, short, and custom when a URL is given) hits an engine failure. |
| `Model.AddRecordNeverOverwrites` | src/model.rs:97-109 | Whatever the outcome, no entry of any tree is removed or replaced: the contract of `AddRecordSpec`, restated as a lemma of its own. |
| `Model.AddRecordWritesOnlyItsKeys` | src/model.rs:98-106 | The only keys that can change are the hash in the data tree, the short code in the short tree, and the custom URL, if any, in the custom tree. |
| `Model.AddRecordWithoutCustomUrl` | src/model.rs:101-107 | With no custom URL the custom tree is unchanged. |
| `Model.AddRecordFresh` | src/model.rs:98-106 | On fresh keys, `Ok` means three things. The data tree maps the hash to the serialized item. The short tree maps the short code to the hash bytes. The custom URL maps to those same bytes. |
| `Model.AddRecordStopsAtFirstError` | src/model.rs:98-99 | A failing data insert returns `Err` with nothing written. A failing short insert returns `Err` after the data write, and the short and custom trees are untouched. |
| `Model.AddRecordNotAtomic` | src/model.rs:98-99 | The call can return `Err` and still leave the new record stored in the data tree with no short entry written: the short tree is unchanged, so the inserts are not one transaction. |
| `Model.AddRecordPresentKeysIgnored` | src/model.rs:90-94 | When all the record's keys are present nothing changes, and without engine failures the call returns `Ok`: no conflict is reported. |
| `Model.OpenTreeOwnEntry` | src/model.rs:32-34 | Each tree name has its own keyspace in the engine (`OpenTree`): storing a tree under name `a` makes `open_tree(a)` give that tree, and leaves what `open_tree(b)` gives unchanged for every other name `b`. |
| `Model.DataTrees.constructor` | src/model.rs:30-36 | Each field is the engine's tree stored under that tree's one-byte name, or an empty tree. |
| `Model.DataTrees.InsertWhenNotExist` | src/model.rs:85-95 | The new trees and the result are those of `InsertStep`, so no entry is overwritten. |
| `Model.DataTrees.AddRecord` | src/model.rs:97-109 | The new trees and the result are those of the three sequential inserts with early return (`AddRecordSpec`), so no entry is overwritten. |
| `Controller.StatusToString` | src/controller.rs:18-24 | `Created` prints as "created" and `Existed` as "existed", both ways round. |
| `Controller.StatusToStringInjective` | src/controller.rs:18-24 | The two statuses print differently, and neither has a line break. |
| `Controller.ResponseToString` | src/controller.rs:36-53 | The text is non-empty and ends with a line break. Its line-by-line content is `ResponseToStringLines`. |
| `Controller.ResponseToStringLines` | src/controller.rs:36-53 | If no field contains a line break, the text splits at line breaks into `date`, `digest`, `short`, `size`, `url`, `status` (in that order) and nothing after the last break. |
| `Controller.FirstContentPart` | src/controller.rs:61-62 | The index found is that of a part named `c` or `content`, and no earlier part has either name. None means that no part has either name. |
| `Controller.StoreContent` | src/controller.rs:74-93 | After the store step the short code of the content is present. Every earlier entry keeps its value. The only key added is the short code. |
| `Controller.UploadSpec` | src/controller.rs:56-118 | No existing entry is removed or replaced, and the status is 201, 302 or 400. The lemmas `UploadNeverReplaces` through `UploadReplyLines` state the rest. |
| `Controller.UploadNeverReplaces` | src/controller.rs:78-81 | An upload never replaces an entry. It adds at most the short code of the first content part, and adds nothing when there is no such part. |
| `Controller.UploadStatusFollowsExistence` | src/controller.rs:78-111 | A taken short code gives 302 and no change. A free code gives 201, and the content is stored under it. |
| `Controller.UploadWithoutContent` | src/controller.rs:114-117 | The reply is "invalid" with 400 and the store is unchanged if and only if no part is named `c` or `content`. |
| `Controller.UploadFirstContentOnly` | src/controller.rs:61-112 | Only the first content part matters: the parts before it are not content parts, and the parts after it change nothing. |
| `Controller.UploadReplyLines` | src/controller.rs:74-105 | The reply lines are these, in order. The date. The digest. Its first four characters. The content length in decimal. `url + "/" + short`. "existed" or "created", by whether the code was taken. |
| `Controller.ParseKey` | src/controller.rs:121-129 | A key without '.' gives the lower-cased key, "txt" and no highlighting. A key with '.' highlights. Its lookup key is the text before the first '.', taken unchanged from the key. Its extension is the text after the last '.'. |
| `Controller.View` | src/controller.rs:130-148 | The reply is 200, or else exactly "not found" with 404. `ViewOutcomes` says which case happens and what the body is. |
| `Controller.ViewOutcomes` | src/controller.rs:130-148 | "not found" with 404 if and only if the read fails or the key is absent. Otherwise the status is 200. With no '.' in the key, the body is the stored bytes. With a '.', the body is those bytes highlighted for the extension. |
| `Controller.UploadThenView` | src/controller.rs:78-81 | After an upload, viewing its short code answers the stored bytes with 200; a created upload stored exactly its content. |
| `Controller.Upload` | src/controller.rs:56-118 | The reply and the new store are those of `UploadSpec`. The loop proves that the part handled is the first part named `c` or `content`. |
| `Controller.ViewData` | src/controller.rs:120-149 | The reply is that of `View` for the parsed key. The store is only read: the method modifies nothing. |
| `Strings.Split` | src/controller.rs:125 | `split('.')` gives at least one piece, and no piece contains the separator. With `JoinSplit` and `SplitJoin` this pins it down to Rust's `split`. |
| `Strings.SplitFirst` | src/controller.rs:125-126 | The first piece of `split('.')` is a prefix without '.'. In a string that has a '.', a '.' follows it. |
| `Strings.SplitLast` | src/controller.rs:125-127 | The last piece of `split('.')` is a suffix without '.'. In a string that has a '.', a '.' precedes it. |
| `Strings.JoinSplit` | src/controller.rs:125 | Joining the pieces with the separator gives back the string. |
| `Strings.SplitJoin` | src/controller.rs:125 | At least one piece, none with the separator: joining then splitting gives back the pieces. So `Split` is the one inverse of joining. |
| `Strings.ToLowercase` | src/controller.rs:121 | The result has the same length, and each character is lower-cased on its own (ASCII letters only). `ToLowercaseIdempotent` and `ToLowercaseOfLower` are its properties. |
| `Bytes.AsBytes` | src/model.rs:73 | `as_bytes` is the UTF-8 encoding: its length is between the number of characters and four times that, and for ASCII text it is exactly the character codes. |
| `Bytes.AsBytesInjective` | src/model.rs:85-90 | Two strings have the same UTF-8 bytes only if they are equal, so keying a tree by a string instead of its `as_ref` bytes loses nothing. |
| `Strings.ToLowercaseIdempotent` | src/controller.rs:121 | Lower-casing leaves no upper-case ASCII letter, and doing it twice is the same as doing it once. |

## Left out

- HTTP and async plumbing: warp routing, collecting and streaming the multipart form, and building replies beyond the body and status. A form or stream read error in `upload` gives a warp rejection, which the model does not have; a part's content is its stream already read. Logging (`info!`, `eprintln!`) is left out too.
- blake3, `to_hex`, bincode and chrono are foreign libraries. They are parameters, and the only assumption is that a digest is 64 lower-case hex characters. `String::from_utf8_lossy` and `highlight_lines` stay abstract: a reply body names the stored bytes, and the extension for highlighting.
- `unwrap()` panics are not modelled: `open_tree` in `DataTrees::new`, bincode in `add_record`, and `db.get`, `db.insert` in `upload`. Those calls are taken to succeed.
- `Strings.ToLowercase`: only ASCII letters are lower-cased. Rust's `to_lowercase` also maps other Unicode letters. Some of those mappings change the length, so the model does not cover them.
- sled keys are byte strings, and the model keys trees by Rust strings. A string and its UTF-8 bytes determine each other (`Bytes.AsBytesInjective`), so no two keys collide in one form but not the other.
- `delete_record` (src/model.rs:111) has an empty body, so no delete is modelled. Expiry is not modelled either: `destroy_time` is stored and never read.
- `custom_url_upload`, `delete_data` and `update_data` are routed in src/main.rs but do not exist in src/controller.rs. src/main.rs (server wiring), src/config.rs (a plain struct), src/highlighter.rs and src/markdown.rs (wrappers over syntect and pulldown-cmark) are not part of this model.
- The core files as shown do not compile in three places, and the model takes the evident reading of each. First, in src/model.rs:98-99 `data.hash` is moved before `bincode::serialize(&data)` and used again after; the model serializes the whole item and stores the bytes of the hash. Second, `delete_record` (src/model.rs:111) has an empty body. Third, `highlight_lines` returns an `Option<String>` (src/highlighter.rs:10) that goes to `warp::reply::html` (src/controller.rs:133-134); the model answers an `Html` body for any extension. So `Html` does not separate the case where `find_syntax_by_extension` finds no syntax for the extension. src/main.rs and src/config.rs, which are not part of this model, have further such spots.
- `Model.InsertStep`: a failing `compare_and_swap` is taken to be atomic and to write nothing. The source does not say what a failed engine call leaves behind; `Model.AddRecordStopsAtFirstError` rests on this reading.
- `upload` (src/controller.rs:56-118) never calls `add_record`: it reads and writes one sled tree of its own. The controller's store (`Controller.Db`) and `Model.DataTrees` are therefore separate stores, and no lemma relates them.
- Concurrency: the model runs the operations one at a time over plain maps. Interleaved requests on the shared sled handles are not covered.
