/**
 * The request handlers of `src/controller.rs`, on a single sled tree: `upload`
 * stores the first content part under the short code of its digest unless
 * that code is taken, and `view_data` looks a key up.
 */
module Controller {
  import opened Wrappers
  import opened Bytes
  import opened Digests
  import opened Numerals
  import opened Strings

  datatype UploadStatus = Created | Existed

  /** `UploadStatus::to_string`. */
  function StatusToString(status: UploadStatus): (s: string)
    ensures s == "created" <==> status == Created
    ensures s == "existed" <==> status == Existed
  {
    match status
    case Created => "created"
    case Existed => "existed"
  }

  /** The two statuses print differently, and neither takes more than one line. */
  lemma StatusToStringInjective(a: UploadStatus, b: UploadStatus)
    ensures StatusToString(a) == StatusToString(b) <==> a == b
    ensures '\n' !in StatusToString(a)
  {
  }

  datatype UploadResponse = UploadResponse(
    date: string,
    digest: string,
    short: string,
    size: nat,
    status: UploadStatus,
    url: string)

  /** One line `name: value` of the response text. */
  function Line(name: string, value: string): string
  {
    name + ": " + value
  }

  /** A line with its line break. */
  function Field(name: string, value: string): string
  {
    Line(name, value) + "\n"
  }

  /** `UploadResponse::to_string`: the fields as lines, in the order of the format string. */
  function ResponseToString(r: UploadResponse): (s: string)
    ensures |s| > 0 && s[|s| - 1] == '\n'
  {
    Field("date", r.date) + (Field("digest", r.digest) + (Field("short", r.short) +
    (Field("size", ToStrRadix(r.size, 10)) + (Field("url", r.url) + Field("status", StatusToString(r.status))))))
  }

  /** The six lines of a response, without their line breaks. */
  function ResponseLines(r: UploadResponse): seq<string>
  {
    [Line("date", r.date), Line("digest", r.digest), Line("short", r.short), Line("size", ToStrRadix(r.size, 10)),
     Line("url", r.url), Line("status", StatusToString(r.status))]
  }

  /** A line break after a line without one: the line is the first piece of the split. */
  lemma SplitField(name: string, value: string, rest: string)
    requires '\n' !in name && '\n' !in value
    ensures Split(Field(name, value) + rest, '\n') == [Line(name, value)] + Split(rest, '\n')
  {
    SplitAppend(Line(name, value), rest, '\n');
  }

  /**
   * The text is six newline-terminated lines, date, digest, short, size, url
   * and status, provided no field holds a line break itself.
   */
  lemma ResponseToStringLines(r: UploadResponse)
    requires '\n' !in r.date && '\n' !in r.digest && '\n' !in r.short && '\n' !in r.url
    ensures Split(ResponseToString(r), '\n') == ResponseLines(r) + [""]
  {
    var size := ToStrRadix(r.size, 10);
    assert '\n' !in size by {
      assert forall i :: 0 <= i < |size| ==> IsDigit(size[i], 10);
    }
    var status := StatusToString(r.status);
    StatusToStringInjective(r.status, r.status);
    var s6 := Field("status", status);
    assert s6 == Field("status", status) + "";
    SplitField("status", status, "");
    assert Split("", '\n') == [""];
    var s5 := Field("url", r.url) + s6;
    SplitField("url", r.url, s6);
    var s4 := Field("size", size) + s5;
    SplitField("size", size, s5);
    var s3 := Field("short", r.short) + s4;
    SplitField("short", r.short, s4);
    var s2 := Field("digest", r.digest) + s3;
    SplitField("digest", r.digest, s3);
    SplitField("date", r.date, s2);
    assert ResponseToString(r) == Field("date", r.date) + s2;
  }

  /** What a handler answers: a body and an HTTP status code. */
  datatype Body =
    | Text(text: string)
      /** `String::from_utf8_lossy` of the stored bytes. */
    | Lossy(data: seq<byte>)
      /** The HTML that `highlight_lines` makes of the stored bytes for the extension. */
    | Html(source: seq<byte>, ext: string)

  datatype Reply = Reply(body: Body, status: nat)

  const StatusOk: nat := 200
  const StatusCreated: nat := 201
  const StatusFound: nat := 302
  const StatusBadRequest: nat := 400
  const StatusNotFound: nat := 404

  /** A part of the multipart form, with its stream already read. */
  datatype Part = Part(name: string, content: seq<byte>)

  predicate IsContentPart(p: Part)
  {
    p.name == "c" || p.name == "content"
  }

  /** The index of the first part named `c` or `content`, if any. */
  function FirstContentPart(parts: seq<Part>): (r: Option<nat>)
    ensures r.Some? ==> r.value < |parts| && IsContentPart(parts[r.value])
    ensures r.Some? ==> forall j :: 0 <= j < r.value ==> !IsContentPart(parts[j])
    ensures r.None? ==> forall j :: 0 <= j < |parts| ==> !IsContentPart(parts[j])
  {
    if parts == [] then None
    else if IsContentPart(parts[0]) then Some(0)
    else match FirstContentPart(parts[1..])
      case None => None
      case Some(i) => Some(i + 1)
  }

  /** The default tree of the database. */
  type Entries = map<string, seq<byte>>

  datatype UploadResult = UploadResult(reply: Reply, entries: Entries)

  /** The response `upload` builds for `value`, stored or found under its short code. */
  function UploadResponseOf(value: seq<byte>, hasher: Hasher, now: string, url: string, existed: bool): UploadResponse
  {
    var digest := hasher(value);
    UploadResponse(now, digest, Short(digest), |value|, if existed then Existed else Created, url + "/" + Short(digest))
  }

  /** The store step of `upload` for the content `value`: get, then insert if absent. */
  function StoreContent(entries: Entries, value: seq<byte>, url: string, hasher: Hasher, now: string): (r: UploadResult)
    ensures Short(hasher(value)) in r.entries
    ensures forall k :: k in entries ==> k in r.entries && r.entries[k] == entries[k]
    ensures r.entries.Keys == entries.Keys + {Short(hasher(value))}
  {
    var short := Short(hasher(value));
    var existed := short in entries;
    var response := UploadResponseOf(value, hasher, now, url, existed);
    if existed then UploadResult(Reply(Text(ResponseToString(response)), StatusFound), entries)
    else UploadResult(Reply(Text(ResponseToString(response)), StatusCreated), entries[short := value])
  }

  /** `upload`: the first content part is stored; without one the request is invalid. */
  function UploadSpec(parts: seq<Part>, entries: Entries, url: string, hasher: Hasher, now: string): (r: UploadResult)
    ensures forall k :: k in entries ==> k in r.entries && r.entries[k] == entries[k]
    ensures r.reply.status in {StatusCreated, StatusFound, StatusBadRequest}
  {
    match FirstContentPart(parts)
    case None => UploadResult(Reply(Text("invalid"), StatusBadRequest), entries)
    case Some(i) => StoreContent(entries, parts[i].content, url, hasher, now)
  }

  /** An upload never replaces an entry and adds at most the short code of its content. */
  lemma UploadNeverReplaces(parts: seq<Part>, entries: Entries, url: string, hasher: Hasher, now: string)
    ensures var r := UploadSpec(parts, entries, url, hasher, now);
      && (forall k :: k in entries ==> k in r.entries && r.entries[k] == entries[k])
      && (match FirstContentPart(parts)
          case None => r.entries == entries
          case Some(i) => r.entries.Keys <= entries.Keys + {Short(hasher(parts[i].content))})
  {
  }

  /**
   * The status follows whether the short code was taken: taken gives
   * `Existed` with 302 Found and no write; free gives `Created` with
   * 201 Created and the content stored under it.
   */
  lemma UploadStatusFollowsExistence(parts: seq<Part>, entries: Entries, url: string, hasher: Hasher,
                                     now: string, i: nat)
    requires FirstContentPart(parts) == Some(i)
    ensures var r := UploadSpec(parts, entries, url, hasher, now);
      var value := parts[i].content;
      var short := Short(hasher(value));
      && (short in entries <==> r.reply.status == StatusFound)
      && (short !in entries <==> r.reply.status == StatusCreated)
      && (short in entries ==> r.entries == entries)
      && (short !in entries ==> r.entries == entries[short := value])
  {
  }

  /** Without a part named `c` or `content` the answer is "invalid" with 400 and nothing is stored. */
  lemma UploadWithoutContent(parts: seq<Part>, entries: Entries, url: string, hasher: Hasher, now: string)
    ensures var r := UploadSpec(parts, entries, url, hasher, now);
      (forall j :: 0 <= j < |parts| ==> !IsContentPart(parts[j])) <==>
        r == UploadResult(Reply(Text("invalid"), StatusBadRequest), entries)
  {
    var r := UploadSpec(parts, entries, url, hasher, now);
    if FirstContentPart(parts).Some? {
      var i := FirstContentPart(parts).value;
      assert r.reply.status != StatusBadRequest by {
        UploadStatusFollowsExistence(parts, entries, url, hasher, now, i);
      }
    }
  }

  /** Only the first content part counts: the parts after it make no difference. */
  lemma {:induction false} UploadFirstContentOnly(pre: seq<Part>, p: Part, post: seq<Part>, entries: Entries,
                                                  url: string, hasher: Hasher, now: string)
    requires forall j :: 0 <= j < |pre| ==> !IsContentPart(pre[j])
    requires IsContentPart(p)
    ensures UploadSpec(pre + [p] + post, entries, url, hasher, now) == UploadSpec([p], entries, url, hasher, now)
  {
    var parts := pre + [p] + post;
    assert parts[|pre|] == p;
    assert FirstContentPart(parts) == Some(|pre|);
    assert FirstContentPart([p]) == Some(0);
  }

  /**
   * The reply text of a stored upload lists the date, the digest, its first
   * four characters, the content length, the URL `url/short` and the status.
   */
  lemma UploadReplyLines(parts: seq<Part>, entries: Entries, url: string, hasher: Hasher, now: string, i: nat)
    requires FirstContentPart(parts) == Some(i)
    requires '\n' !in now && '\n' !in url
    ensures var r := UploadSpec(parts, entries, url, hasher, now);
      var value := parts[i].content;
      var digest := hasher(value);
      var short := digest[..4];
      && r.reply.body.Text?
      && Split(r.reply.body.text, '\n') ==
        [Line("date", now), Line("digest", digest), Line("short", short), Line("size", ToStrRadix(|value|, 10)),
         Line("url", url + "/" + short), Line("status", if short in entries then "existed" else "created"), ""]
  {
    var value := parts[i].content;
    var digest := hasher(value);
    ShortIsPlain(digest);
    assert '\n' !in digest by {
      assert forall k :: 0 <= k < |digest| ==> IsLowerHex(digest[k]);
    }
    var response := UploadResponseOf(value, hasher, now, url, Short(digest) in entries);
    assert '\n' !in url + "/" + Short(digest);
    ResponseToStringLines(response);
  }

  /** The parts of a key that `view_data` uses: the lookup key, the extension, whether to highlight. */
  datatype ViewKey = ViewKey(databaseKey: string, ext: string, highlighting: bool)

  /**
   * The key parsing of `view_data`: a key without '.' is looked up lower-cased
   * as plain text; otherwise the text before the first '.' is looked up as it
   * is, the text after the last '.' is the extension, and the output is
   * highlighted.
   */
  function ParseKey(key: string): (k: ViewKey)
    ensures '.' !in key ==> k == ViewKey(ToLowercase(key), "txt", false)
    ensures '.' in key ==>
      && k.highlighting
      && k.databaseKey <= key && '.' !in k.databaseKey
      && |k.databaseKey| < |key| && key[|k.databaseKey|] == '.'
      && |k.ext| < |key| && k.ext == key[|key| - |k.ext|..] && '.' !in k.ext
      && key[|key| - |k.ext| - 1] == '.'
  {
    if '.' in key then
      SplitFirst(key, '.');
      SplitLast(key, '.');
      var res := Split(key, '.');
      ViewKey(res[0], res[|res| - 1], true)
    else
      ViewKey(ToLowercase(key), "txt", false)
  }

  /** `view_data` against the tree `entries`; `readFails` is an engine error on the read. */
  function View(key: string, entries: Entries, readFails: bool): (reply: Reply)
    ensures reply.status == StatusOk || reply == Reply(Text("not found"), StatusNotFound)
  {
    var k := ParseKey(key);
    if !readFails && k.databaseKey in entries then
      if k.highlighting then Reply(Html(entries[k.databaseKey], k.ext), StatusOk)
      else Reply(Lossy(entries[k.databaseKey]), StatusOk)
    else Reply(Text("not found"), StatusNotFound)
  }

  /**
   * An absent key, or a failing read, answers "not found" with 404; a key
   * without '.' finds its lower-cased form and answers the stored bytes as
   * text with 200; a key with '.' answers them highlighted for its extension.
   */
  lemma ViewOutcomes(key: string, entries: Entries, readFails: bool)
    ensures var reply := View(key, entries, readFails);
      var k := ParseKey(key);
      && (reply.status == StatusNotFound <==> readFails || k.databaseKey !in entries)
      && (reply.status == StatusNotFound ==> reply.body == Text("not found"))
      && (reply.status != StatusNotFound ==> reply.status == StatusOk)
      && (!readFails && '.' !in key && ToLowercase(key) in entries ==>
            reply == Reply(Lossy(entries[ToLowercase(key)]), StatusOk))
      && (!readFails && '.' in key && k.databaseKey in entries ==>
            reply == Reply(Html(entries[k.databaseKey], k.ext), StatusOk))
  {
  }

  /**
   * What was uploaded can be viewed under its short code: the reply is the
   * stored content, unhighlighted, with 200 OK.
   */
  lemma UploadThenView(parts: seq<Part>, entries: Entries, url: string, hasher: Hasher, now: string, i: nat)
    requires FirstContentPart(parts) == Some(i)
    ensures var r := UploadSpec(parts, entries, url, hasher, now);
      var short := Short(hasher(parts[i].content));
      && short in r.entries
      && View(short, r.entries, false) == Reply(Lossy(r.entries[short]), StatusOk)
      && (r.reply.status == StatusCreated ==> r.entries[short] == parts[i].content)
  {
    var short := Short(hasher(parts[i].content));
    ShortIsPlain(hasher(parts[i].content));
    ToLowercaseOfLower(short);
    UploadStatusFollowsExistence(parts, entries, url, hasher, now, i);
  }

  /** The sled database handle the handlers get; only its default tree is used. */
  class Db {
    var entries: Entries

    constructor (entries: Entries)
      ensures this.entries == entries
    {
      this.entries := entries;
    }
  }

  /** `upload`: go through the parts and store the first content part. */
  method Upload(parts: seq<Part>, db: Db, url: string, hasher: Hasher, now: string) returns (reply: Reply)
    modifies db
    ensures UploadResult(reply, db.entries) == UploadSpec(parts, old(db.entries), url, hasher, now)
  {
    var i := 0;
    while i < |parts|
      invariant 0 <= i <= |parts|
      invariant forall j :: 0 <= j < i ==> !IsContentPart(parts[j])
      invariant db.entries == old(db.entries)
    {
      var p := parts[i];
      if p.name == "c" || p.name == "content" {
        var value := p.content;
        var digest := hasher(value);
        var short := Short(digest);
        var date := now;
        var existed := short in db.entries;
        if !existed {
          db.entries := db.entries[short := value];
        }
        var response := UploadResponse(date, digest, short, |value|, if existed then Existed else Created,
                                       url + "/" + short);
        if existed {
          return Reply(Text(ResponseToString(response)), StatusFound);
        } else {
          return Reply(Text(ResponseToString(response)), StatusCreated);
        }
      }
      i := i + 1;
    }
    return Reply(Text("invalid"), StatusBadRequest);
  }

  /** `view_data`: parse the key, then look it up; the tree is only read. */
  method ViewData(key: string, db: Db, readFails: bool) returns (reply: Reply)
    ensures reply == View(key, db.entries, readFails)
  {
    var databaseKey := ToLowercase(key);
    var ext := "txt";
    var highlighting := false;
    if '.' in key {
      var res := Split(key, '.');
      databaseKey := res[0];
      ext := res[|res| - 1];
      highlighting := true;
    }
    if !readFails && databaseKey in db.entries {
      var data := db.entries[databaseKey];
      if highlighting {
        return Reply(Html(data, ext), StatusOk);
      }
      return Reply(Lossy(data), StatusOk);
    }
    return Reply(Text("not found"), StatusNotFound);
  }
}
