/**
 * The record store of `src/model.rs`: a record is written, keyed by the hex
 * digest of its text, into three sled trees (data, short code, custom URL),
 * one insert-if-absent after another.
 */
module Model {
  import opened Wrappers
  import opened Bytes
  import opened Digests

  /** The three trees of the database. */
  datatype TreeName = DataTree | ShortNameTree | CustomNameTree

  /** `TreeNames::as_ref`: the one-byte name each tree is opened under. */
  function AsRef(name: TreeName): (r: seq<byte>)
    ensures |r| == 1 && r[0] < 3
  {
    match name
    case DataTree => [0]
    case ShortNameTree => [1]
    case CustomNameTree => [2]
  }

  /** The three trees have three different names. */
  lemma AsRefInjective(a: TreeName, b: TreeName)
    ensures AsRef(a) == AsRef(b) <==> a == b
  {
  }

  /** The payload of a record: code or a link target, both plain text. */
  datatype TextItem = Code(code: string) | ShortLink(link: string)

  /** `TextItem::get_data`: the text either variant carries. */
  function GetData(text: TextItem): (data: string)
    ensures text == Code(data) || text == ShortLink(data)
  {
    match text
    case Code(t) => t
    case ShortLink(t) => t
  }

  /** Both variants of the same text give the same data: a corollary of `GetData`'s contract. */
  lemma GetDataIgnoresVariant(t: string)
    ensures GetData(Code(t)) == t && GetData(ShortLink(t)) == t
  {
  }

  /** A `DateTime<Utc>`, kept abstract. */
  type Timestamp = int

  /** A stored record, with the fields in the order of the Rust struct. */
  datatype DateBaseItem = DateBaseItem(
    destroyTime: Option<Timestamp>,
    customUrl: Option<string>,
    hash: string,
    short: string,
    text: TextItem)

  /** `DateBaseItem::new`: the record of `text`, addressed by the digest of its UTF-8 bytes. */
  function NewDateBaseItem(hasher: Hasher, text: TextItem, customUrl: Option<string>,
                           destroyTime: Option<Timestamp>): (item: DateBaseItem)
    ensures IsHexDigest(item.hash)
    ensures |item.short| == ShortLength && item.short <= item.hash
    ensures item.hash == hasher(AsBytes(GetData(text)))
    ensures item.text == text && item.customUrl == customUrl && item.destroyTime == destroyTime
  {
    var hash := hasher(AsBytes(GetData(text)));
    DateBaseItem(destroyTime, customUrl, hash, Short(hash), text)
  }

  /** The address of a record depends on its text only, not on the variant, URL or expiry. */
  lemma NewDateBaseItemAddress(hasher: Hasher, a: TextItem, b: TextItem,
                               ua: Option<string>, ub: Option<string>,
                               da: Option<Timestamp>, db: Option<Timestamp>)
    requires GetData(a) == GetData(b)
    ensures NewDateBaseItem(hasher, a, ua, da).hash == NewDateBaseItem(hasher, b, ub, db).hash
    ensures NewDateBaseItem(hasher, a, ua, da).short == NewDateBaseItem(hasher, b, ub, db).short
  {
  }

  /** Code and a short link with the same text share their address: the case of `NewDateBaseItemAddress` with equal URL and expiry. */
  lemma CodeAndLinkShareAddress(hasher: Hasher, t: string, u: Option<string>, d: Option<Timestamp>)
    ensures NewDateBaseItem(hasher, Code(t), u, d).hash == NewDateBaseItem(hasher, ShortLink(t), u, d).hash
  {
    NewDateBaseItemAddress(hasher, Code(t), ShortLink(t), u, u, d, d);
  }

  /** A sled tree, keyed by the bytes of a string. */
  type Tree = map<string, seq<byte>>

  /** The contents of the three trees. */
  datatype Trees = Trees(db: Tree, shortToLong: Tree, customToLong: Tree)

  function Get(t: Trees, name: TreeName): Tree
  {
    match name
    case DataTree => t.db
    case ShortNameTree => t.shortToLong
    case CustomNameTree => t.customToLong
  }

  function Put(t: Trees, name: TreeName, tree: Tree): (r: Trees)
    ensures Get(r, name) == tree
    ensures forall other :: other != name ==> Get(r, other) == Get(t, other)
  {
    match name
    case DataTree => t.(db := tree)
    case ShortNameTree => t.(shortToLong := tree)
    case CustomNameTree => t.(customToLong := tree)
  }

  /** `a` and `b` hold the same keys with the same values, except perhaps at the keys in `except`. */
  ghost predicate AgreeExcept(a: Tree, b: Tree, except: set<string>)
  {
    forall k :: k !in except ==> (k in a <==> k in b) && (k in a ==> a[k] == b[k])
  }

  /** Every key of `a` is still in `b` with the same value. */
  predicate Keeps(a: Tree, b: Tree)
  {
    forall k :: k in a ==> k in b && b[k] == a[k]
  }

  /** No tree lost a key or had a value replaced. */
  predicate KeepsAll(a: Trees, b: Trees)
  {
    Keeps(a.db, b.db) && Keeps(a.shortToLong, b.shortToLong) && Keeps(a.customToLong, b.customToLong)
  }

  /**
   * `compare_and_swap(key, None, Some(value))` when the engine does not fail:
   * the value is written if the key is absent; a present key makes the swap
   * report a mismatch and leaves the tree as it was.
   */
  function CompareAndSwapAbsent(tree: Tree, key: string, value: seq<byte>): (r: Tree)
    ensures Keeps(tree, r)
    ensures AgreeExcept(tree, r, {key})
    ensures key in r && r[key] == (if key in tree then tree[key] else value)
  {
    if key in tree then tree else tree[key := value]
  }

  datatype DataBaseErrorType = Existed

  /** `Result<(), DataBaseErrorType>`. */
  datatype Outcome = Ok | Err(error: DataBaseErrorType)

  /** The contents of the trees after an operation, with what it returned. */
  datatype Step = Step(trees: Trees, outcome: Outcome)

  /**
   * `insert_when_not_exist` on the tree `name`. `engineFails` says whether the
   * engine call itself fails (the outer `Err`); only that is reported, as `Existed`.
   */
  function InsertStep(t: Trees, name: TreeName, key: string, value: seq<byte>, engineFails: bool): (s: Step)
    ensures s.outcome == (if engineFails then Err(Existed) else Ok)
    ensures KeepsAll(t, s.trees)
    ensures forall other :: other != name ==> Get(s.trees, other) == Get(t, other)
    ensures AgreeExcept(Get(t, name), Get(s.trees, name), {key})
    ensures engineFails || key in Get(t, name) ==> s.trees == t
    ensures !engineFails && key !in Get(t, name) ==> key in Get(s.trees, name) && Get(s.trees, name)[key] == value
  {
    if engineFails then Step(t, Err(Existed))
    else Step(Put(t, name, CompareAndSwapAbsent(Get(t, name), key, value)), Ok)
  }

  /**
   * `add_record`: the data tree, then the short tree, then (with a custom URL)
   * the custom tree; the first failing insert stops the rest, and what the
   * earlier inserts wrote stays written. `failing` is the set of trees whose
   * engine call fails.
   */
  function AddRecordSpec(t: Trees, item: DateBaseItem, serialize: DateBaseItem -> seq<byte>,
                         failing: set<TreeName>): (s: Step)
    ensures KeepsAll(t, s.trees)
  {
    var s1 := InsertStep(t, DataTree, item.hash, serialize(item), DataTree in failing);
    if s1.outcome.Err? then s1
    else
      var s2 := InsertStep(s1.trees, ShortNameTree, item.short, AsBytes(item.hash), ShortNameTree in failing);
      if s2.outcome.Err? then s2
      else
        match item.customUrl
        case None => s2
        case Some(url) => InsertStep(s2.trees, CustomNameTree, url, AsBytes(item.hash), CustomNameTree in failing)
  }

  /** `add_record` succeeds exactly when none of the inserts it makes hits an engine failure. */
  lemma AddRecordOutcome(t: Trees, item: DateBaseItem, serialize: DateBaseItem -> seq<byte>, failing: set<TreeName>)
    ensures var s := AddRecordSpec(t, item, serialize, failing);
      s.outcome.Ok? <==>
        DataTree !in failing && ShortNameTree !in failing && (item.customUrl.Some? ==> CustomNameTree !in failing)
  {
  }

  /**
   * Nothing already stored is ever removed or replaced, whatever the outcome:
   * the contract of `AddRecordSpec`, restated as a lemma of its own.
   */
  lemma AddRecordNeverOverwrites(t: Trees, item: DateBaseItem, serialize: DateBaseItem -> seq<byte>,
                                 failing: set<TreeName>)
    ensures KeepsAll(t, AddRecordSpec(t, item, serialize, failing).trees)
  {
  }

  /** Only the record's own three keys can change: its hash, its short code, its custom URL. */
  lemma AddRecordWritesOnlyItsKeys(t: Trees, item: DateBaseItem, serialize: DateBaseItem -> seq<byte>,
                                   failing: set<TreeName>)
    ensures var r := AddRecordSpec(t, item, serialize, failing).trees;
      && AgreeExcept(t.db, r.db, {item.hash})
      && AgreeExcept(t.shortToLong, r.shortToLong, {item.short})
      && AgreeExcept(t.customToLong, r.customToLong,
                     match item.customUrl case None => {} case Some(u) => {u})
  {
  }

  /** Without a custom URL the custom tree is not touched. */
  lemma AddRecordWithoutCustomUrl(t: Trees, item: DateBaseItem, serialize: DateBaseItem -> seq<byte>,
                                  failing: set<TreeName>)
    requires item.customUrl.None?
    ensures AddRecordSpec(t, item, serialize, failing).trees.customToLong == t.customToLong
  {
  }

  /**
   * On fresh keys a successful `add_record` stores the serialized record under
   * its hash, and the short code and custom URL both point at that hash.
   */
  lemma AddRecordFresh(t: Trees, item: DateBaseItem, serialize: DateBaseItem -> seq<byte>, failing: set<TreeName>)
    requires item.hash !in t.db && item.short !in t.shortToLong
    requires item.customUrl.Some? ==> item.customUrl.value !in t.customToLong
    ensures var s := AddRecordSpec(t, item, serialize, failing);
      s.outcome.Ok? ==>
        && item.hash in s.trees.db && s.trees.db[item.hash] == serialize(item)
        && item.short in s.trees.shortToLong && s.trees.shortToLong[item.short] == AsBytes(item.hash)
        && (item.customUrl.Some? ==>
              var u := item.customUrl.value;
              u in s.trees.customToLong && s.trees.customToLong[u] == s.trees.shortToLong[item.short])
  {
  }

  /** A first failing insert stops the later ones. */
  lemma AddRecordStopsAtFirstError(t: Trees, item: DateBaseItem, serialize: DateBaseItem -> seq<byte>,
                                   failing: set<TreeName>)
    ensures var s := AddRecordSpec(t, item, serialize, failing);
      && (DataTree in failing ==> s == Step(t, Err(Existed)))
      && (DataTree !in failing && ShortNameTree in failing ==>
            && s.outcome == Err(Existed)
            && s.trees.db == CompareAndSwapAbsent(t.db, item.hash, serialize(item))
            && s.trees.shortToLong == t.shortToLong
            && s.trees.customToLong == t.customToLong)
  {
  }

  /**
   * The inserts are not one transaction: when the short-code insert fails
   * after the data insert, the record stays in the data tree although the
   * call returns `Err`.
   */
  lemma AddRecordNotAtomic(t: Trees, item: DateBaseItem, serialize: DateBaseItem -> seq<byte>,
                           failing: set<TreeName>)
    requires item.hash !in t.db
    requires DataTree !in failing && ShortNameTree in failing
    ensures var s := AddRecordSpec(t, item, serialize, failing);
      && s.outcome.Err?
      && item.hash in s.trees.db && s.trees.db[item.hash] == serialize(item)
      && s.trees.shortToLong == t.shortToLong
  {
  }

  /**
   * A key that is already present is silently skipped: storing a record all of
   * whose keys exist returns `Ok` and changes nothing.
   */
  lemma AddRecordPresentKeysIgnored(t: Trees, item: DateBaseItem, serialize: DateBaseItem -> seq<byte>,
                                    failing: set<TreeName>)
    requires item.hash in t.db && item.short in t.shortToLong
    requires item.customUrl.Some? ==> item.customUrl.value in t.customToLong
    ensures var s := AddRecordSpec(t, item, serialize, failing);
      s.trees == t && (failing == {} ==> s.outcome == Ok)
  {
  }

  /** The tree that `open_tree(name)` gives: the stored one, or a new empty tree. */
  function OpenTree(database: map<seq<byte>, Tree>, name: TreeName): (tree: Tree)
    ensures AsRef(name) in database ==> tree == database[AsRef(name)]
    ensures AsRef(name) !in database ==> tree == map[]
  {
    if AsRef(name) in database then database[AsRef(name)] else map[]
  }

  /**
   * Each tree name has its own keyspace: storing a tree under one name's entry
   * gives that tree back for that name and leaves what every other name opens unchanged.
   */
  lemma OpenTreeOwnEntry(database: map<seq<byte>, Tree>, a: TreeName, b: TreeName, t: Tree)
    ensures OpenTree(database[AsRef(a) := t], a) == t
    ensures a != b ==> OpenTree(database[AsRef(a) := t], b) == OpenTree(database, b)
  {
    AsRefInjective(a, b);
  }

  /** The handles on the three trees, `DataTrees`. */
  class DataTrees {
    var db: Tree
    var shortToLongDb: Tree
    var customToLongDb: Tree

    function Value(): Trees
      reads this
    {
      Trees(db, shortToLongDb, customToLongDb)
    }

    /** `DataTrees::new`: open each tree of `database` under its one-byte name. */
    constructor (database: map<seq<byte>, Tree>)
      ensures Value() == Trees(OpenTree(database, DataTree), OpenTree(database, ShortNameTree),
                               OpenTree(database, CustomNameTree))
    {
      db := OpenTree(database, DataTree);
      shortToLongDb := OpenTree(database, ShortNameTree);
      customToLongDb := OpenTree(database, CustomNameTree);
    }

    /** `insert_when_not_exist`: write `value` under `key` in the tree `name` unless `key` is there. */
    method InsertWhenNotExist(name: TreeName, key: string, value: seq<byte>, engineFails: bool) returns (r: Outcome)
      modifies this
      ensures Step(Value(), r) == InsertStep(old(Value()), name, key, value, engineFails)
      ensures KeepsAll(old(Value()), Value())
    {
      if engineFails {
        return Err(Existed);
      }
      match name {
        case DataTree => db := CompareAndSwapAbsent(db, key, value);
        case ShortNameTree => shortToLongDb := CompareAndSwapAbsent(shortToLongDb, key, value);
        case CustomNameTree => customToLongDb := CompareAndSwapAbsent(customToLongDb, key, value);
      }
      return Ok;
    }

    /** `add_record`: the three inserts in order, returning at the first `Err`. */
    method AddRecord(data: DateBaseItem, serialize: DateBaseItem -> seq<byte>, failing: set<TreeName>)
      returns (r: Outcome)
      modifies this
      ensures Step(Value(), r) == AddRecordSpec(old(Value()), data, serialize, failing)
      ensures KeepsAll(old(Value()), Value())
    {
      r := InsertWhenNotExist(DataTree, data.hash, serialize(data), DataTree in failing);
      if r.Err? {
        return;
      }
      r := InsertWhenNotExist(ShortNameTree, data.short, AsBytes(data.hash), ShortNameTree in failing);
      if r.Err? {
        return;
      }
      if data.customUrl.Some? {
        r := InsertWhenNotExist(CustomNameTree, data.customUrl.value, AsBytes(data.hash), CustomNameTree in failing);
        if r.Err? {
          return;
        }
      }
      return Ok;
    }
  }
}
