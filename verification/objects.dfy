/** Git objects and their content-addressed storage (`_write_object` /
    `_read_object`): an object is saved as `fmt SP size NUL content` under a path
    made from the SHA-1 digest of those bytes. */
module Objects {
  import opened Wrappers
  import opened Bytes
  import opened Strings
  import Kvlm
  import Tree
  import opened Store

  /** The four object classes. Commits and tags hold a KVLM dictionary, a tree
      its nodes, a blob its bytes. */
  datatype GitObject =
    | GitBlob(data: Bytes)
    | GitTree(nodes: seq<Tree.TreeNode>)
    | GitCommit(kvlm: Kvlm.Kvlm)
    | GitTag(kvlm: Kvlm.Kvlm)

  const BlobFormat: Text := [0x62, 0x6C, 0x6F, 0x62]               // "blob"
  const TreeFormat: Text := [0x74, 0x72, 0x65, 0x65]               // "tree"
  const CommitFormat: Text := [0x63, 0x6F, 0x6D, 0x6D, 0x69, 0x74] // "commit"
  const TagFormat: Text := [0x74, 0x61, 0x67]                      // "tag"

  const GitDir: Text := [0x2E, 0x67, 0x69, 0x74]                      // ".git"
  const ObjectsDir: Text := [0x6F, 0x62, 0x6A, 0x65, 0x63, 0x74, 0x73] // "objects"

  /** A SHA-1 digest as `hexdigest()` prints it. */
  type Digest = s: Text | IsDigest(s) witness Zeros40()

  function Zeros40(): (r: Text)
    ensures IsDigest(r)
  {
    seq(40, _ => 0x30)
  }

  /** The `fmt` attribute of each class. */
  function Format(obj: GitObject): (r: Text)
    ensures SP !in r && NUL !in r && |r| > 0
  {
    match obj
    case GitBlob(_) => BlobFormat
    case GitTree(_) => TreeFormat
    case GitCommit(_) => CommitFormat
    case GitTag(_) => TagFormat
  }

  predicate IsFormat(fmt: Text) {
    fmt == BlobFormat || fmt == TreeFormat || fmt == CommitFormat || fmt == TagFormat
  }

  /** Each class's `serialize`: a tree sorts and encodes its nodes, commits and
      tags write their dictionary. */
  function Serialize(obj: GitObject): Result<Bytes> {
    match obj
    case GitBlob(data) => Ok(data)
    case GitTree(nodes) => Tree.Serialize(nodes)
    case GitCommit(kv) => Kvlm.Write(kv)
    case GitTag(kv) => Kvlm.Write(kv)
  }

  /** `obj_mapping[fmt](content)`: the class named by the type tag parses the
      content; an unknown tag is a `KeyError`. */
  function Deserialize(fmt: Text, content: Bytes): (r: Result<GitObject>)
    ensures !IsFormat(fmt) <==> r == Err(UnknownFormat)
    ensures r.Ok? ==> Format(r.value) == fmt
    ensures fmt == BlobFormat ==> r == Ok(GitBlob(content))
  {
    if fmt == CommitFormat || fmt == TagFormat then
      var kv :- Kvlm.Read(content);
      Ok(if fmt == CommitFormat then GitCommit(kv) else GitTag(kv))
    else if fmt == TreeFormat then
      var nodes :- Tree.ReadTree(content);
      Ok(GitTree(nodes))
    else if fmt == BlobFormat then Ok(GitBlob(content))
    else Err(UnknownFormat)
  }

  // ---------------------------------------------------------------------------
  // The envelope

  /** `fmt + b' ' + str(len(content)) + b'\x00' + content`. */
  function Envelope(fmt: Text, content: Bytes): Bytes {
    fmt + [SP] + Decimal(|content|) + [NUL] + content
  }

  /** `_read_object` after the lookup: the type tag runs to the first space, the
      size from there to the next NUL, the content from after the NUL. The size
      must parse as an integer but is never compared with the content. Without a
      NUL, `size_sep` is -1: the size is read from the space up to the last byte
      and the content is the whole of `data`. Without a space Python's `int('')`
      fails. */
  function ParseEnvelope(data: Bytes): (r: Result<(Text, Bytes)>)
    ensures r.Ok? ==> SP !in r.value.0 && StartsWith(data, r.value.0 + [SP])
    ensures r.Err? ==> r.error == BadEnvelope || r.error == BadSize
  {
    match Find(data, SP, 0)
    case None => Err(BadEnvelope)
    case Some(sp) =>
      FindFirst(data, SP, 0);
      var fmt := data[..sp];
      assert data[..sp + 1] == fmt + [SP];
      match Find(data, NUL, sp)
      case Some(z) =>
        if ParseDecimal(data[sp + 1..z]).None? then Err(BadSize) else Ok((fmt, data[z + 1..]))
      case None =>
        if sp + 1 <= |data| - 1 && ParseDecimal(data[sp + 1..|data| - 1]).Some?
        then Ok((fmt, data))
        else Err(BadSize)
  }

  /** The size field is parsed but not checked: any decimal size in front of the
      NUL gives back the type tag and the content. */
  lemma {:induction false} ParseEnvelopeAnySize(fmt: Text, size: nat, content: Bytes)
    requires SP !in fmt
    ensures ParseEnvelope(fmt + [SP] + Decimal(size) + [NUL] + content) == Ok((fmt, content))
  {
    var d := Decimal(size);
    var data := fmt + [SP] + d + [NUL] + content;
    var sp := |fmt|;
    var z := |fmt| + 1 + |d|;
    assert forall i :: 0 <= i < |d| ==> d[i] != SP && d[i] != NUL;
    FindAt(data, SP, 0, sp);
    FindAt(data, NUL, sp, z);
    assert data[..sp] == fmt;
    assert data[sp + 1..z] == d;
    assert data[z + 1..] == content;
    ParseDecimalOfDecimal(size);
  }

  /** What `_write_object` writes, `_read_object` splits back. */
  lemma {:induction false} ParseEnvelopeOfEnvelope(fmt: Text, content: Bytes)
    requires SP !in fmt
    ensures ParseEnvelope(Envelope(fmt, content)) == Ok((fmt, content))
  {
    ParseEnvelopeAnySize(fmt, |content|, content);
  }

  /** An envelope that lost its NUL still reads: its whole text becomes the
      content, here `b"blob 12"` read as a blob. */
  lemma MissingNulKeepsEverything()
    ensures ParseEnvelope([0x62, 0x6C, 0x6F, 0x62, 0x20, 0x31, 0x32]) ==
              Ok((BlobFormat, [0x62, 0x6C, 0x6F, 0x62, 0x20, 0x31, 0x32]))
  {
    var data: Bytes := [0x62, 0x6C, 0x6F, 0x62, 0x20, 0x31, 0x32];
    FindAt(data, SP, 0, 4);
    FindNone(data, NUL, 4);
    assert data[..4] == BlobFormat;
    assert data[5..6] == [0x31];
    assert ParseDecimal([0x31]).Some?;
  }

  // ---------------------------------------------------------------------------
  // Storage paths

  /** `sha[:2]` and `sha[2:]`, short strings included. */
  function Head(sha: Text): Text {
    if |sha| < 2 then sha else sha[..2]
  }

  function Rest(sha: Text): Text {
    if |sha| < 2 then [] else sha[2..]
  }

  /** `f".git/objects/{sha[:2]}/{sha[2:]}"`. */
  function ObjectPath(sha: Text): Text {
    Join([GitDir, ObjectsDir, Head(sha), Rest(sha)], [SLASH])
  }

  /** `f".git/objects/{sha[:2]}/"`. */
  function FolderPath(sha: Text): Text {
    Join([GitDir, ObjectsDir, Head(sha), []], [SLASH])
  }

  /** The path components of a digest's folder and object. */
  function FolderComponents(sha: Digest): seq<Text> {
    [GitDir, ObjectsDir, sha[..2]]
  }

  function ObjectComponents(sha: Digest): seq<Text> {
    FolderComponents(sha) + [sha[2..]]
  }

  lemma {:induction false} ObjectPathComponents(sha: Digest)
    ensures Components(ObjectPath(sha)) == ObjectComponents(sha)
    ensures Components(FolderPath(sha)) == FolderComponents(sha)
  {
    var cs := ObjectComponents(sha);
    assert cs == [GitDir, ObjectsDir, sha[..2], sha[2..]];
    assert SLASH !in sha[..2] && SLASH !in sha[2..] by {
      assert forall i :: 0 <= i < |sha| ==> sha[i] != SLASH;
    }
    assert SLASH !in GitDir && SLASH !in ObjectsDir;
    assert AllComponents(cs);
    ComponentsOfJoin(cs);
    var p := FolderComponents(sha);
    assert AllComponents(p);
    ComponentsOfJoin(p);
    JoinAppend(p, [], [SLASH]);
    assert p + [[]] == [GitDir, ObjectsDir, Head(sha), []];
    ComponentsAroundSlash(Join(p, [SLASH]), []);
    NoComponents();
    assert Join(p, [SLASH]) + [SLASH] + [] == FolderPath(sha);
  }

  // ---------------------------------------------------------------------------
  // Writing and reading

  /** `_read_object(sha)`: any failure of the lookup becomes "object not found";
      a folder in place of bytes has no `find`. */
  function ReadObject(store: Node, sha: Text): (r: Result<GitObject>)
    ensures Get(store, ObjectPath(sha)).Err? ==> r == Err(ObjectNotFound)
    ensures r.Ok? ==> Get(store, ObjectPath(sha)).Ok? && Get(store, ObjectPath(sha)).value.Leaf?
  {
    match Get(store, ObjectPath(sha))
    case Err(_) => Err(ObjectNotFound)
    case Ok(Folder(_)) => Err(NotBytes)
    case Ok(Leaf(data)) =>
      var (fmt, content) :- ParseEnvelope(data);
      Deserialize(fmt, content)
  }

  /** Reading depends only on what is stored at the object's path. */
  lemma ReadSameObject(a: Node, b: Node, sha: Text)
    requires Get(a, ObjectPath(sha)) == Get(b, ObjectPath(sha))
    ensures ReadObject(a, sha) == ReadObject(b, sha)
  {
  }

  /** `_write_object(obj)`: the digest `hash` gives for the envelope, and the
      store after the folder and then the object are set without overwriting. */
  function WriteObject(store: Node, obj: GitObject, hash: Bytes -> Digest): (r: Result<(Digest, Node)>)
    ensures r.Ok? ==> Serialize(obj).Ok? && r.value.0 == hash(Envelope(Format(obj), Serialize(obj).value))
  {
    var content :- Serialize(obj);
    WriteData(store, Envelope(Format(obj), content), hash)
  }

  /** The two sets of `_write_object` for the envelope `data`. */
  function WriteData(store: Node, data: Bytes, hash: Bytes -> Digest): (r: Result<(Digest, Node)>)
    ensures r.Ok? ==> r.value.0 == hash(data)
  {
    var sha := hash(data);
    var folder :- Set(store, FolderPath(sha), None, false);
    var saved :- Set(folder, ObjectPath(sha), Some(Leaf(data)), false);
    Ok((sha, saved))
  }

  /** The digest `_write_object` returns for an object that serialises. */
  function DigestOf(obj: GitObject, hash: Bytes -> Digest): Digest
    requires Serialize(obj).Ok?
  {
    hash(Envelope(Format(obj), Serialize(obj).value))
  }

  /** A write depends only on the format and the serialised content. */
  lemma WriteSameContent(store: Node, a: GitObject, b: GitObject, hash: Bytes -> Digest)
    requires Format(a) == Format(b) && Serialize(a) == Serialize(b)
    ensures WriteObject(store, a, hash) == WriteObject(store, b, hash)
  {
  }

  /** `.git/objects` is a folder: what `init` sets up and every write needs. */
  predicate HasObjectsFolder(store: Node) {
    IsFolder(store, Join([GitDir, ObjectsDir], [SLASH]))
  }

  /** The store has room for object `obj`: its folder is absent or a folder,
      and the object itself is absent. */
  predicate ObjectIsFree(store: Node, obj: GitObject, hash: Bytes -> Digest)
    requires Serialize(obj).Ok?
  {
    && (Get(store, FolderPath(DigestOf(obj, hash))).Ok? ==> IsFolder(store, FolderPath(DigestOf(obj, hash))))
    && Get(store, ObjectPath(DigestOf(obj, hash))).Err?
  }

  lemma ObjectsDirComponents()
    ensures Components(Join([GitDir, ObjectsDir], [SLASH])) == [GitDir, ObjectsDir]
  {
    assert AllComponents([GitDir, ObjectsDir]) by {
      assert SLASH !in GitDir && SLASH !in ObjectsDir;
    }
    ComponentsOfJoin([GitDir, ObjectsDir]);
  }

  /** A write into a store with `.git/objects` puts the envelope at the digest's
      path, when that path was free and its folder is not a leaf. */
  lemma {:induction false} WriteStores(store: Node, obj: GitObject, hash: Bytes -> Digest)
    requires Serialize(obj).Ok? && HasObjectsFolder(store)
    requires ObjectIsFree(store, obj, hash)
    ensures WriteObject(store, obj, hash).Ok?
    ensures var (sha, saved) := WriteObject(store, obj, hash).value;
            Get(saved, ObjectPath(sha)) == Ok(Leaf(Envelope(Format(obj), Serialize(obj).value)))
  {
    var data := Envelope(Format(obj), Serialize(obj).value);
    StoreObjectData(store, hash(data), data);
  }

  /** The two sets of `_write_object` store `data` under a digest whose folder
      may exist and whose object does not. */
  lemma {:induction false} StoreObjectData(store: Node, sha: Digest, data: Bytes)
    requires HasObjectsFolder(store)
    requires Get(store, FolderPath(sha)).Ok? ==> IsFolder(store, FolderPath(sha))
    requires Get(store, ObjectPath(sha)).Err?
    ensures Set(store, FolderPath(sha), None, false).Ok?
    ensures var folder := Set(store, FolderPath(sha), None, false).value;
            Set(folder, ObjectPath(sha), Some(Leaf(data)), false).Ok?
            && Get(Set(folder, ObjectPath(sha), Some(Leaf(data)), false).value, ObjectPath(sha)) == Ok(Leaf(data))
  {
    var dir := FolderComponents(sha);
    ObjectPathComponents(sha);
    ObjectsDirComponents();
    assert Parent(dir) == [GitDir, ObjectsDir];
    StoreInFolder(store, dir, sha[2..], Leaf(data));
  }

  /** A write changes nothing outside `.git/objects`. */
  lemma {:induction false} WriteFrame(store: Node, obj: GitObject, hash: Bytes -> Digest, q: seq<Text>)
    requires WriteObject(store, obj, hash).Ok?
    requires Apart(q, [GitDir, ObjectsDir])
    ensures GetAt(WriteObject(store, obj, hash).value.1, q) == GetAt(store, q)
  {
    var data := Envelope(Format(obj), Serialize(obj).value);
    var sha := hash(data);
    var dir := FolderComponents(sha);
    ObjectPathComponents(sha);
    var i :| 0 <= i < |q| && i < 2 && q[i] != [GitDir, ObjectsDir][i];
    assert q[i] != dir[i];
    StoreInFolderFrame(store, dir, sha[2..], Leaf(data), q);
  }

  /** Writing the same object again returns the same digest and changes
      nothing. */
  lemma {:induction false} WriteTwice(store: Node, obj: GitObject, hash: Bytes -> Digest)
    requires WriteObject(store, obj, hash).Ok?
    ensures var (sha, saved) := WriteObject(store, obj, hash).value;
            WriteObject(saved, obj, hash) == Ok((sha, saved))
  {
    var data := Envelope(Format(obj), Serialize(obj).value);
    var sha := hash(data);
    var dir := FolderComponents(sha);
    ObjectPathComponents(sha);
    var folder := SetAt(store, dir, Folder([]), false).value;
    var saved := SetAt(folder, dir + [sha[2..]], Leaf(data), false).value;
    GetAfterSet(folder, dir + [sha[2..]], Leaf(data), false);
    StoreInFolderAgain(saved, dir, sha[2..], Leaf(data));
  }

  /** What the reader makes of a serialised object: a tree comes back sorted,
      with the quirk of `read_tree` applied to its first node. */
  function AsRead(obj: GitObject): GitObject {
    match obj
    case GitTree(nodes) => GitTree(Tree.PadFirst(Tree.SortByKey(nodes)))
    case _ => obj
  }

  /** The objects whose content parses back: well-formed tree nodes and
      well-formed dictionaries. */
  predicate WellFormedObject(obj: GitObject) {
    match obj
    case GitBlob(_) => true
    case GitTree(nodes) => forall i :: 0 <= i < |nodes| ==> Tree.WellFormedNode(nodes[i])
    case GitCommit(kv) => Kvlm.WellFormed(kv)
    case GitTag(kv) => Kvlm.WellFormed(kv)
  }

  /** Each class's `deserialize` undoes its `serialize`. */
  lemma {:induction false} DeserializeSerialize(obj: GitObject)
    requires WellFormedObject(obj)
    ensures Serialize(obj).Ok?
    ensures Deserialize(Format(obj), Serialize(obj).value) == Ok(AsRead(obj))
  {
    match obj
    case GitBlob(_) =>
    case GitTree(nodes) => Tree.ReadSerialized(nodes);
    case GitCommit(kv) => Kvlm.ReadWrite(kv);
    case GitTag(kv) => Kvlm.ReadWrite(kv);
  }

  /** `_read_object` of the digest `_write_object` returns gives the object back. */
  lemma {:induction false} ReadWritten(store: Node, obj: GitObject, hash: Bytes -> Digest)
    requires WellFormedObject(obj)
    requires Serialize(obj).Ok? && HasObjectsFolder(store)
    requires ObjectIsFree(store, obj, hash)
    ensures WriteObject(store, obj, hash).Ok?
    ensures var (sha, saved) := WriteObject(store, obj, hash).value;
            ReadObject(saved, sha) == Ok(AsRead(obj))
  {
    WriteStores(store, obj, hash);
    ParseEnvelopeOfEnvelope(Format(obj), Serialize(obj).value);
    DeserializeSerialize(obj);
  }

  /** An unknown type tag in a stored envelope fails the read. */
  lemma {:induction false} UnknownFormatFails(store: Node, sha: Text, fmt: Text, content: Bytes)
    requires SP !in fmt && !IsFormat(fmt)
    requires Get(store, ObjectPath(sha)) == Ok(Leaf(Envelope(fmt, content)))
    ensures ReadObject(store, sha) == Err(UnknownFormat)
  {
    ParseEnvelopeOfEnvelope(fmt, content);
  }
}
