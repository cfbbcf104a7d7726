/** References and name lookup: `_resolve_reference`, `_get_all_references`,
    `_find_hashes`, `_find_object`, `create_ref`, `create_tag`. A reference is a
    stored text that is either a digest or `ref: ` followed by a path below
    `.git`. */
module Refs {
  import opened Wrappers
  import opened Bytes
  import opened Strings
  import opened Store
  import opened Objects
  import Kvlm

  const RefsName: Text := [0x72, 0x65, 0x66, 0x73]         // "refs"
  const TagsName: Text := [0x74, 0x61, 0x67, 0x73]         // "tags"
  const HeadsName: Text := [0x68, 0x65, 0x61, 0x64, 0x73]  // "heads"
  const MainName: Text := [0x6D, 0x61, 0x69, 0x6E]         // "main"

  /** ".git/refs", ".git/refs/tags", ".git/refs/heads". */
  const RefsDir: Text := Join([GitDir, RefsName], [SLASH])
  const TagsDir: Text := Join([GitDir, RefsName, TagsName], [SLASH])
  const HeadsDir: Text := Join([GitDir, RefsName, HeadsName], [SLASH])

  /** "ref: ", the mark of a symbolic reference. */
  const RefPrefix: Text := [0x72, 0x65, 0x66, 0x3A, 0x20]

  // ---------------------------------------------------------------------------
  // _resolve_reference

  /** What one call of `_resolve_reference` does with the joined path: finish
      with a result, or call itself on another path. */
  datatype Step = Done(result: Result<Option<Text>>) | Follow(next: Text)

  /** A folder gives None; stored bytes are stripped, and a "ref: " mark sends
      the lookup to the rest of the text below `.git`; anything else is the
      digest. */
  function StepAt(store: Node, refPath: Text): (s: Step)
    ensures IsFolder(store, refPath) ==> s == Done(Ok(None))
    ensures s.Done? && s.result.Ok? && s.result.value.Some? ==> !StartsWith(s.result.value.value, RefPrefix)
    ensures s.Done? && s.result.Err? ==> s.result.error == KeyNotFound || s.result.error == NotAFolder
  {
    if IsFolder(store, refPath) then Done(Ok(None))
    else
      match Get(store, refPath)
      case Err(e) => Done(Err(e))
      case Ok(Folder(_)) => Done(Err(NotAFolder))
      case Ok(Leaf(b)) =>
        var data := Strip(b, BytesWhitespace);
        if StartsWith(data, RefPrefix) then Follow(PathJoin(GitDir, data[|RefPrefix|..]))
        else Done(Ok(Some(data)))
  }

  /** The fuel left for a nested call: one unit per call frame. */
  function Spend(fuel: nat): nat
    requires fuel > 0
  {
    fuel - 1
  }

  /** `_resolve_reference` on the joined path `refPath`. `fuel` bounds the chain
      of symbolic references the way Python's recursion limit does. */
  function Resolve(store: Node, refPath: Text, fuel: nat): (r: Result<Option<Text>>)
    ensures fuel > 0 && IsFolder(store, refPath) ==> r == Ok(None)
    ensures r.Ok? && r.value.Some? ==> !StartsWith(r.value.value, RefPrefix)
    ensures r.Err? ==> r.error == RecursionLimit || r.error == KeyNotFound || r.error == NotAFolder
    decreases fuel
  {
    if fuel == 0 then Err(RecursionLimit)
    else
      match StepAt(store, refPath)
      case Done(result) => result
      case Follow(next) => Resolve(store, next, Spend(fuel))
  }

  /** `_resolve_reference(path, ref)`. */
  function ResolveReference(store: Node, path: Text, ref: Text, fuel: nat): Result<Option<Text>> {
    Resolve(store, PathJoin(path, ref), fuel)
  }

  /** A path that names nothing raises, however much fuel is left. */
  lemma {:induction false} ResolveMissing(store: Node, refPath: Text, fuel: nat)
    requires fuel > 0 && Get(store, refPath).Err?
    ensures Resolve(store, refPath, fuel) == Err(Get(store, refPath).error)
  {
  }

  /** A stored digest (no "ref: " mark) resolves to its stripped text. */
  lemma {:induction false} ResolveDirect(store: Node, refPath: Text, b: Bytes, fuel: nat)
    requires fuel > 0 && Get(store, refPath) == Ok(Leaf(b))
    requires !StartsWith(Strip(b, BytesWhitespace), RefPrefix)
    ensures Resolve(store, refPath, fuel) == Ok(Some(Strip(b, BytesWhitespace)))
  {
  }

  /** A symbolic reference resolves as its target, looked up below `.git`. */
  lemma {:induction false} ResolveSymbolic(store: Node, refPath: Text, target: Text, fuel: nat)
    requires fuel > 0 && Get(store, refPath).Ok? && Get(store, refPath).value.Leaf?
    requires Strip(Get(store, refPath).value.data, BytesWhitespace) == RefPrefix + target
    ensures Resolve(store, refPath, fuel) == Resolve(store, PathJoin(GitDir, target), Spend(fuel))
  {
    var data := RefPrefix + target;
    assert StartsWith(data, RefPrefix);
    assert data[|RefPrefix|..] == target;
  }

  /** Fuel only cuts a resolution short: a result other than the recursion limit
      stays the same with more fuel. */
  lemma {:induction false} ResolveMoreFuel(store: Node, refPath: Text, fuel: nat, more: nat)
    requires fuel <= more && Resolve(store, refPath, fuel) != Err(RecursionLimit)
    ensures Resolve(store, refPath, more) == Resolve(store, refPath, fuel)
    decreases fuel
  {
    if fuel > 0 && StepAt(store, refPath).Follow? {
      ResolveMoreFuel(store, StepAt(store, refPath).next, Spend(fuel), Spend(more));
    }
  }

  /** A reference whose stripped text names itself never resolves: every amount
      of fuel runs out. */
  lemma {:induction false} SelfReferenceNeverResolves(store: Node, name: Text, fuel: nat)
    requires Get(store, PathJoin(GitDir, name)) == Ok(Leaf(RefPrefix + name))
    requires Strip(RefPrefix + name, BytesWhitespace) == RefPrefix + name
    ensures Resolve(store, PathJoin(GitDir, name), fuel) == Err(RecursionLimit)
    decreases fuel
  {
    if fuel > 0 {
      ResolveSymbolic(store, PathJoin(GitDir, name), name, fuel);
      SelfReferenceNeverResolves(store, name, Spend(fuel));
    }
  }

  // ---------------------------------------------------------------------------
  // _get_all_references

  /** The references found below a path, keyed by their joined path, in the
      order the walk first reached them. */
  type RefTable = seq<(Text, Option<Text>)>

  /** `_get_all_references(path, acc)`: every leaf below `path` resolved, into
      `acc`. Iterating stored bytes instead of a map fails on the first byte. */
  function AllReferences(store: Node, path: Text, acc: RefTable, fuel: nat): Result<RefTable>
    decreases fuel, 1, 0
  {
    if fuel == 0 then Err(RecursionLimit)
    else
      var refs :- Get(store, path);
      match refs
      case Leaf(b) => if |b| == 0 then Ok(acc) else Err(NotAFolder)
      case Folder(es) => ReferencesIn(store, path, Keys(es), acc, fuel)
  }

  /** The loop `for ref in refs` of `_get_all_references`. */
  function ReferencesIn(store: Node, path: Text, refs: seq<Text>, acc: RefTable, fuel: nat): Result<RefTable>
    requires fuel > 0
    decreases fuel, 0, |refs|
  {
    if |refs| == 0 then Ok(acc)
    else
      var refPath := PathJoin(path, refs[0]);
      var acc' :-
        if IsFolder(store, refPath) then AllReferences(store, refPath, acc, Spend(fuel))
        else
          var v :- ResolveReference(store, path, refs[0], Spend(fuel));
          Ok(Put(acc, refPath, v));
      ReferencesIn(store, path, refs[1..], acc', fuel)
  }

  /** A reference `refPath` that resolves to `v` with some fuel. */
  ghost predicate Resolves(store: Node, refPath: Text, v: Option<Text>) {
    exists fuel :: Resolve(store, refPath, fuel) == Ok(v)
  }

  /** Every entry `_get_all_references` adds is a path that is not a folder,
      paired with what it resolves to. */
  lemma {:induction false} AllReferencesSound(store: Node, path: Text, acc: RefTable, fuel: nat)
    requires AllReferences(store, path, acc, fuel).Ok?
    ensures SoundOver(store, AllReferences(store, path, acc, fuel).value, acc)
    decreases fuel, 1, 0
  {
    match Get(store, path).value
    case Leaf(_) =>
    case Folder(es) => ReferencesInSound(store, path, Keys(es), acc, fuel);
  }

  lemma {:induction false} ReferencesInSound(store: Node, path: Text, refs: seq<Text>, acc: RefTable, fuel: nat)
    requires fuel > 0 && ReferencesIn(store, path, refs, acc, fuel).Ok?
    ensures SoundOver(store, ReferencesIn(store, path, refs, acc, fuel).value, acc)
    decreases fuel, 0, |refs|, 1
  {
    if |refs| > 0 {
      var mid := ReferencesInFirst(store, path, refs, acc, fuel);
      ReferencesInSound(store, path, refs[1..], mid, fuel);
      SoundOverTrans(store, ReferencesIn(store, path, refs[1..], mid, fuel).value, mid, acc);
    }
  }

  /** The table after the first name of the loop is sound over `acc`, and the rest
      of the loop continues from it. */
  lemma {:induction false} ReferencesInFirst(store: Node, path: Text, refs: seq<Text>, acc: RefTable, fuel: nat)
      returns (mid: RefTable)
    requires fuel > 0 && |refs| > 0 && ReferencesIn(store, path, refs, acc, fuel).Ok?
    ensures ReferencesIn(store, path, refs, acc, fuel) == ReferencesIn(store, path, refs[1..], mid, fuel)
    ensures SoundOver(store, mid, acc)
    decreases fuel, 0, |refs|, 0
  {
    var refPath := PathJoin(path, refs[0]);
    if IsFolder(store, refPath) {
      mid := AllReferences(store, refPath, acc, Spend(fuel)).value;
      AllReferencesSound(store, refPath, acc, Spend(fuel));
    } else {
      var v := ResolveReference(store, path, refs[0], Spend(fuel)).value;
      mid := Put(acc, refPath, v);
      PutEntries(acc, refPath, v);
      assert Resolve(store, refPath, Spend(fuel)) == Ok(v);
    }
  }

  /** Each entry of `t` is one of `acc` or a resolved reference. */
  ghost predicate SoundOver(store: Node, t: RefTable, acc: RefTable) {
    forall i :: 0 <= i < |t| ==> t[i] in acc || (!IsFolder(store, t[i].0) && Resolves(store, t[i].0, t[i].1))
  }

  lemma SoundOverTrans(store: Node, out: RefTable, mid: RefTable, acc: RefTable)
    requires SoundOver(store, out, mid) && SoundOver(store, mid, acc)
    ensures SoundOver(store, out, acc)
  {
    forall i | 0 <= i < |out| && out[i] in mid
      ensures out[i] in acc || (!IsFolder(store, out[i].0) && Resolves(store, out[i].0, out[i].1))
    {
      var j :| 0 <= j < |mid| && mid[j] == out[i];
    }
  }

  /** The path reached from `path` by joining the names `ks` one after another. */
  function Walk(path: Text, ks: seq<Text>): Text
    decreases |ks|
  {
    if |ks| == 0 then path else Walk(PathJoin(path, ks[0]), ks[1..])
  }

  /** Following the names `ks` from the folder at `path`, each name is listed in
      the folder reached so far, every step but the last lands on a folder, and
      the last lands on something that is not a folder: a leaf the walk must
      record. */
  ghost predicate ReachesLeaf(store: Node, path: Text, ks: seq<Text>)
    decreases |ks|
  {
    && |ks| > 0
    && IsFolder(store, path)
    && ks[0] in Keys(Get(store, path).value.entries)
    && if |ks| == 1 then !IsFolder(store, PathJoin(path, ks[0]))
       else ReachesLeaf(store, PathJoin(path, ks[0]), ks[1..])
  }

  /** The walk only adds entries: every key of `acc` is still a key afterwards. */
  lemma {:induction false} AllReferencesGrows(store: Node, path: Text, acc: RefTable, fuel: nat)
    requires AllReferences(store, path, acc, fuel).Ok?
    ensures forall k :: k in Keys(acc) ==> k in Keys(AllReferences(store, path, acc, fuel).value)
    decreases fuel, 1, 0
  {
    match Get(store, path).value
    case Leaf(_) =>
    case Folder(es) => ReferencesInGrows(store, path, Keys(es), acc, fuel);
  }

  lemma {:induction false} ReferencesInGrows(store: Node, path: Text, refs: seq<Text>, acc: RefTable, fuel: nat)
    requires fuel > 0 && ReferencesIn(store, path, refs, acc, fuel).Ok?
    ensures forall k :: k in Keys(acc) ==> k in Keys(ReferencesIn(store, path, refs, acc, fuel).value)
    decreases fuel, 0, |refs|
  {
    if |refs| > 0 {
      var refPath := PathJoin(path, refs[0]);
      var mid: RefTable;
      if IsFolder(store, refPath) {
        mid := AllReferences(store, refPath, acc, Spend(fuel)).value;
        AllReferencesGrows(store, refPath, acc, Spend(fuel));
      } else {
        var v := ResolveReference(store, path, refs[0], Spend(fuel)).value;
        mid := Put(acc, refPath, v);
      }
      ReferencesInGrows(store, path, refs[1..], mid, fuel);
    }
  }

  /** Every leaf below `path`, at any depth, is a key of the table the walk
      returns. */
  lemma {:induction false} AllReferencesComplete(store: Node, path: Text, acc: RefTable, fuel: nat, ks: seq<Text>)
    requires AllReferences(store, path, acc, fuel).Ok?
    requires ReachesLeaf(store, path, ks)
    ensures Walk(path, ks) in Keys(AllReferences(store, path, acc, fuel).value)
    decreases fuel, 1, 0
  {
    ReferencesInComplete(store, path, Keys(Get(store, path).value.entries), acc, fuel, ks);
  }

  /** The loop's part of completeness: a leaf reached through any name of `refs`
      is a key of the loop's result. */
  lemma {:induction false} ReferencesInComplete(store: Node, path: Text, refs: seq<Text>, acc: RefTable, fuel: nat, ks: seq<Text>)
    requires fuel > 0 && ReferencesIn(store, path, refs, acc, fuel).Ok?
    requires ReachesLeaf(store, path, ks) && ks[0] in refs
    ensures Walk(path, ks) in Keys(ReferencesIn(store, path, refs, acc, fuel).value)
    decreases fuel, 0, |refs|
  {
    var refPath := PathJoin(path, refs[0]);
    var mid: RefTable;
    if IsFolder(store, refPath) {
      mid := AllReferences(store, refPath, acc, Spend(fuel)).value;
      if refs[0] == ks[0] {
        AllReferencesComplete(store, refPath, acc, Spend(fuel), ks[1..]);
      }
    } else {
      var v := ResolveReference(store, path, refs[0], Spend(fuel)).value;
      mid := Put(acc, refPath, v);
    }
    assert ReferencesIn(store, path, refs, acc, fuel) == ReferencesIn(store, path, refs[1..], mid, fuel);
    if refs[0] == ks[0] {
      ReferencesInGrows(store, path, refs[1..], mid, fuel);
    } else {
      ReferencesInComplete(store, path, refs[1..], mid, fuel, ks);
    }
  }

  // ---------------------------------------------------------------------------
  // _find_hashes

  /** `re.match(r"^[0-9A-Fa-f]{4,40}$", name)`; `$` also matches in front of a
      final newline. */
  predicate IsHexName(name: Text) {
    var body := if |name| > 0 && name[|name| - 1] == NL then name[..|name| - 1] else name;
    4 <= |body| <= 40 && IsHex(body)
  }

  /** `head + t` for every stored key `t` that starts with `tail`, in key order. */
  function Matching(head: Text, tail: Text, keys: seq<Text>): (r: seq<Text>)
    ensures forall k :: k in keys ==> (StartsWith(k, tail) <==> head + k in r)
    ensures forall x :: x in r ==> StartsWith(x, head + tail) && x[|head|..] in keys
  {
    if |keys| == 0 then []
    else
      var rest := Matching(head, tail, keys[1..]);
      assert forall k :: k in keys[1..] ==> (head + k)[|head|..] == k;
      if StartsWith(keys[0], tail) then
        assert (head + keys[0])[|head|..] == keys[0];
        assert StartsWith(head + keys[0], head + tail) by {
          assert (head + keys[0])[..|head + tail|] == head + keys[0][..|tail|];
        }
        [head + keys[0]] + rest
      else
        rest
  }

  /** The digests a name's lookup adds: a false-y result (None or empty) adds
      nothing. */
  function Truthy(found: Option<Text>): (r: seq<Text>)
    ensures |r| <= 1
    ensures forall x :: x in r ==> |x| > 0 && found == Some(x)
  {
    if found.Some? && |found.value| > 0 then [found.value] else []
  }

  /** `f".git/objects/{head}"`. */
  function HeadFolder(head: Text): Text {
    Join([GitDir, ObjectsDir, head], [SLASH])
  }

  /** `_find_hashes(name)`: an empty name has no candidates; a hexadecimal name
      is a digest prefix looked up in its folder; any other name is looked up
      under tags and then heads, in one `try` that swallows any exception. */
  function FindHashes(store: Node, name: Text, fuel: nat): (r: Result<seq<Text>>)
    ensures |name| == 0 ==> r == Ok([])
    ensures !IsHexName(name) ==> r.Ok? && |r.value| <= 2
    ensures IsHexName(name) && r.Ok? ==> forall x :: x in r.value ==> StartsWith(x, name)
    ensures r.Err? ==> IsHexName(name) && r.error != RecursionLimit
    ensures |name| > 0 && IsHexName(name) && Get(store, HeadFolder(name[..2])).Err? ==>
              r == Err(Get(store, HeadFolder(name[..2])).error)
    ensures |name| > 0 && IsHexName(name) && Get(store, HeadFolder(name[..2])).Ok? &&
              Get(store, HeadFolder(name[..2])).value.Leaf? ==>
              r == Err(NotAFolder)
  {
    if |name| == 0 then Ok([])
    else if IsHexName(name) then
      var folder :- Get(store, HeadFolder(name[..2]));
      match folder
      case Leaf(_) => Err(NotAFolder)
      case Folder(es) =>
        assert name[..2] + name[2..] == name;
        Ok(Matching(name[..2], name[2..], Keys(es)))
    else
      match ResolveReference(store, TagsDir, name, fuel)
      case Err(_) => Ok([])
      case Ok(tag) =>
        match ResolveReference(store, HeadsDir, name, fuel)
        case Err(_) => Ok(Truthy(tag))
        case Ok(head) => Ok(Truthy(tag) + Truthy(head))
  }

  /** A digest prefix finds exactly the stored objects whose path completes it. */
  lemma {:induction false} FindHashesByPrefix(store: Node, name: Text, fuel: nat, es: seq<(Text, Node)>, key: Text)
    requires |name| > 0 && IsHexName(name)
    requires Get(store, HeadFolder(name[..2])) == Ok(Folder(es))
    requires key in Keys(es)
    ensures FindHashes(store, name, fuel).Ok?
    ensures name[..2] + key in FindHashes(store, name, fuel).value <==> StartsWith(key, name[2..])
  {
  }

  /** A name that is not hexadecimal: the tag's digest, then the branch's, each
      only when it resolved to a non-empty text. */
  lemma {:induction false} FindHashesByName(store: Node, name: Text, fuel: nat)
    requires |name| > 0 && !IsHexName(name)
    requires ResolveReference(store, TagsDir, name, fuel).Ok?
    requires ResolveReference(store, HeadsDir, name, fuel).Ok?
    ensures FindHashes(store, name, fuel) ==
              Ok(Truthy(ResolveReference(store, TagsDir, name, fuel).value) +
                 Truthy(ResolveReference(store, HeadsDir, name, fuel).value))
  {
  }

  /** The tag and branch lookups share one `try`: when the tag lookup raises, the
      branch is never looked at, whatever it holds. */
  lemma {:induction false} TagFailureHidesBranch(store: Node, name: Text, fuel: nat)
    requires |name| > 0 && !IsHexName(name)
    requires ResolveReference(store, TagsDir, name, fuel).Err?
    ensures FindHashes(store, name, fuel) == Ok([])
  {
  }

  // ---------------------------------------------------------------------------
  // _find_object

  const ObjectKey: Text := [0x6F, 0x62, 0x6A, 0x65, 0x63, 0x74] // "object"
  const TreeKey: Text := [0x74, 0x72, 0x65, 0x65]               // "tree"
  const TypeKey: Text := [0x74, 0x79, 0x70, 0x65]               // "type"
  const TagKey: Text := [0x74, 0x61, 0x67]                      // "tag"

  /** `data[key][0]`: a missing key is a `KeyError`; the first element of a list,
      or the first character of a plain string. */
  function FirstValue(kv: Kvlm.Kvlm, key: Text): (r: Result<Text>)
    ensures Kvlm.KeyIndex(kv.fields, key).None? ==> r == Err(KeyNotFound)
    ensures Kvlm.AllLists(kv.fields) && |Kvlm.ValuesOf(kv.fields, key)| > 0 ==> r == Ok(Kvlm.ValuesOf(kv.fields, key)[0])
  {
    match Kvlm.KeyIndex(kv.fields, key)
    case None => Err(KeyNotFound)
    case Some(i) =>
      match kv.fields[i].value
      case List(items) => if |items| == 0 then Err(IndexOutOfRange) else Ok(items[0])
      case Str(s) => if |s| == 0 then Err(IndexOutOfRange) else Ok([s[0]])
  }

  /** `_find_object(name, fmt)`: the one candidate, peeled one step: a tag gives
      the object it names, a commit its tree; any other object gives its own
      digest when `fmt` is None or matches, and None otherwise. */
  function FindObject(store: Node, name: Text, fmt: Option<Text>, fuel: nat): (r: Result<Option<Text>>)
    ensures r.Ok? ==> FindHashes(store, name, fuel).Ok? && |FindHashes(store, name, fuel).value| == 1
    ensures FindHashes(store, name, fuel) == Ok([]) ==> r == Err(NoHashes)
    ensures FindHashes(store, name, fuel).Ok? && |FindHashes(store, name, fuel).value| > 1 ==> r == Err(AmbiguousName)
    ensures fmt.None? && r.Ok? ==> r.value.Some?
  {
    var hashes :- FindHashes(store, name, fuel);
    if |hashes| == 0 then Err(NoHashes)
    else if |hashes| > 1 then Err(AmbiguousName)
    else
      var sha := hashes[0];
      var obj :- ReadObject(store, sha);
      match obj
      case GitTag(kv) =>
        var target :- FirstValue(kv, ObjectKey);
        Ok(Some(target))
      case GitCommit(kv) =>
        var tree :- FirstValue(kv, TreeKey);
        Ok(Some(tree))
      case _ =>
        if fmt.None? || fmt.value == Format(obj) then Ok(Some(sha)) else Ok(None)
  }

  /** A single candidate that is a tree or a blob comes back as itself exactly
      when the requested format allows it. */
  lemma {:induction false} FindObjectPlain(store: Node, name: Text, fmt: Option<Text>, fuel: nat, sha: Text)
    requires FindHashes(store, name, fuel) == Ok([sha])
    requires ReadObject(store, sha).Ok? && (ReadObject(store, sha).value.GitTree? || ReadObject(store, sha).value.GitBlob?)
    ensures FindObject(store, name, fmt, fuel) ==
              if fmt.None? || fmt.value == Format(ReadObject(store, sha).value) then Ok(Some(sha)) else Ok(None)
  {
  }

  /** A single candidate that is a tag gives the first value of its "object" field,
      whatever format was requested. */
  lemma {:induction false} FindObjectTag(store: Node, name: Text, fmt: Option<Text>, fuel: nat, sha: Text, kv: Kvlm.Kvlm)
    requires FindHashes(store, name, fuel) == Ok([sha])
    requires ReadObject(store, sha) == Ok(GitTag(kv))
    ensures FindObject(store, name, fmt, fuel) ==
              match FirstValue(kv, ObjectKey) case Err(e) => Err(e) case Ok(t) => Ok(Some(t))
  {
  }

  /** A single candidate that is a commit gives the first value of its "tree" field,
      whatever format was requested. */
  lemma {:induction false} FindObjectCommit(store: Node, name: Text, fmt: Option<Text>, fuel: nat, sha: Text, kv: Kvlm.Kvlm)
    requires FindHashes(store, name, fuel) == Ok([sha])
    requires ReadObject(store, sha) == Ok(GitCommit(kv))
    ensures FindObject(store, name, fmt, fuel) ==
              match FirstValue(kv, TreeKey) case Err(e) => Err(e) case Ok(t) => Ok(Some(t))
  {
  }

  // ---------------------------------------------------------------------------
  // create_ref, create_tag

  /** `os.path.join(".git/refs", path, name)`. */
  function RefPath(path: Text, name: Text): Text {
    PathJoin(PathJoin(RefsDir, path), name)
  }

  /** `create_ref(path, name, sha)`: the folder `.git/refs/<path>`, then the
      reference inside it, both set without overwriting. */
  function CreateRef(store: Node, path: Text, name: Text, sha: Text): (r: Result<Node>)
  {
    var dir := PathJoin(RefsDir, path);
    var withDir :- Set(store, dir, None, false);
    Set(withDir, PathJoin(dir, name), Some(Leaf(sha)), false)
  }

  /** `.git/refs` is a folder, as `init` leaves it. */
  predicate HasRefsFolder(store: Node) {
    IsFolder(store, RefsDir)
  }

  /** The store has room for the reference `path/name`: the folder for `path`
      is absent or a folder, and the reference itself is absent. */
  predicate RefIsFree(store: Node, path: Text, name: Text) {
    && (Get(store, PathJoin(RefsDir, path)).Ok? ==> IsFolder(store, PathJoin(RefsDir, path)))
    && Get(store, RefPath(path, name)).Err?
  }

  lemma RefsDirComponents()
    ensures Components(RefsDir) == [GitDir, RefsName]
  {
    assert AllComponents([GitDir, RefsName]) by {
      assert SLASH !in GitDir && SLASH !in RefsName;
    }
    ComponentsOfJoin([GitDir, RefsName]);
  }

  /** "tags" and "heads" are single path components. */
  lemma FolderNamesAreComponents()
    ensures IsComponent(TagsName) && IsComponent(HeadsName)
  {
    assert SLASH !in TagsName && SLASH !in HeadsName;
  }

  /** A name without "/" is a single component, and joining it is relative. */
  lemma ComponentAlone(c: Text)
    requires IsComponent(c)
    ensures Components(c) == [c] && !StartsWith(c, [SLASH])
  {
    assert c[..1] == [c[0]];
    ComponentsOfJoin([c]);
  }

  /** The folder and the reference `create_ref` sets, as path components. */
  lemma {:induction false} RefPathComponents(path: Text, name: Text)
    requires IsComponent(path) && IsComponent(name)
    ensures Components(PathJoin(RefsDir, path)) == [GitDir, RefsName, path]
    ensures Components(RefPath(path, name)) == [GitDir, RefsName, path] + [name]
  {
    RefsDirComponents();
    ComponentAlone(path);
    ComponentAlone(name);
    ComponentsOfPathJoin(RefsDir, path);
    ComponentsOfPathJoin(PathJoin(RefsDir, path), name);
  }

  /** In a store with `.git/refs` and room for the reference, `create_ref`
      succeeds and the reference then holds `sha`. */
  lemma {:induction false} CreateRefStores(store: Node, path: Text, name: Text, sha: Text)
    requires IsComponent(path) && IsComponent(name)
    requires HasRefsFolder(store) && RefIsFree(store, path, name)
    ensures CreateRef(store, path, name, sha).Ok?
    ensures Get(CreateRef(store, path, name, sha).value, RefPath(path, name)) == Ok(Leaf(sha))
  {
    RefsDirComponents();
    RefPathComponents(path, name);
    var dir := [GitDir, RefsName, path];
    assert Parent(dir) == [GitDir, RefsName];
    StoreInFolder(store, dir, name, Leaf(sha));
  }

  /** A reference that exists already is never replaced: `create_ref` leaves
      the store as it was. */
  lemma {:induction false} CreateRefKeepsExisting(store: Node, path: Text, name: Text, sha: Text)
    requires IsComponent(path) && IsComponent(name)
    requires Get(store, RefPath(path, name)).Ok?
    ensures CreateRef(store, path, name, sha) == Ok(store)
  {
    RefPathComponents(path, name);
    StoreInFolderAgain(store, [GitDir, RefsName, path], name, Leaf(sha));
  }

  /** `create_ref` changes nothing outside `.git/refs`. */
  lemma {:induction false} CreateRefFrame(store: Node, path: Text, name: Text, sha: Text, q: seq<Text>)
    requires IsComponent(path) && IsComponent(name)
    requires CreateRef(store, path, name, sha).Ok? && Apart(q, [GitDir, RefsName])
    ensures GetAt(CreateRef(store, path, name, sha).value, q) == GetAt(store, q)
  {
    RefPathComponents(path, name);
    var dir := [GitDir, RefsName, path];
    var i :| 0 <= i < |q| && i < 2 && q[i] != [GitDir, RefsName][i];
    assert q[i] != dir[i];
    StoreInFolderFrame(store, dir, name, Leaf(sha), q);
  }

  /** A digest has no surrounding whitespace and no "ref: " mark. */
  lemma DigestIsPlain(sha: Text)
    requires IsDigest(sha)
    ensures Strip(sha, BytesWhitespace) == sha && !StartsWith(sha, RefPrefix)
    ensures NL !in sha && SLASH !in sha
  {
    assert forall i :: 0 <= i < |sha| ==> IsLowerHexDigit(sha[i]);
    assert IsLowerHexDigit(sha[0]) && IsLowerHexDigit(sha[|sha| - 1]);
    assert sha[..|RefPrefix|][0] == sha[0];
  }

  /** A reference created with a digest resolves to that digest. */
  lemma {:induction false} ResolveCreatedRef(store: Node, path: Text, name: Text, sha: Text, fuel: nat)
    requires IsComponent(path) && IsComponent(name) && IsDigest(sha) && fuel > 0
    requires HasRefsFolder(store) && RefIsFree(store, path, name)
    ensures CreateRef(store, path, name, sha).Ok?
    ensures ResolveReference(CreateRef(store, path, name, sha).value, PathJoin(RefsDir, path), name, fuel) == Ok(Some(sha))
  {
    CreateRefStores(store, path, name, sha);
    DigestIsPlain(sha);
    ResolveDirect(CreateRef(store, path, name, sha).value, RefPath(path, name), sha, fuel);
  }

  /** "Some tag object", the message of every heavy tag. */
  const TagMessage: Text := [0x53, 0x6F, 0x6D, 0x65, 0x20, 0x74, 0x61, 0x67, 0x20, 0x6F, 0x62, 0x6A, 0x65, 0x63, 0x74]

  /** The dictionary of a heavy tag: its name, the type "commit", the tagged
      digest, and a fixed message. */
  function TagDictionary(name: Text, target: Text): Kvlm.Kvlm {
    Kvlm.Kvlm(
      [ Kvlm.Field(TagKey, Kvlm.Str(name)),
        Kvlm.Field(TypeKey, Kvlm.Str(CommitFormat)),
        Kvlm.Field(ObjectKey, Kvlm.Str(target)) ],
      Some(TagMessage))
  }

  /** The heavy tag's dictionary as `kvlm_read` gives it back: every value a
      list. */
  function TagDictionaryRead(name: Text, target: Text): Kvlm.Kvlm {
    var kv := TagDictionary(name, target);
    Kvlm.Kvlm(
      [ Kvlm.Field(TagKey, Kvlm.List([name])),
        Kvlm.Field(TypeKey, Kvlm.List([CommitFormat])),
        Kvlm.Field(ObjectKey, Kvlm.List([target])) ],
      kv.message)
  }

  /** `create_tag(path, name, ref, create_tag_object)`: a light tag stores the
      digest `ref` peels to; a heavy one writes a tag object naming that digest
      and stores the tag object's digest. */
  function CreateTag(store: Node, path: Text, name: Text, ref: Text, heavy: bool, hash: Bytes -> Digest, fuel: nat): (r: Result<Node>)
  {
    var found :- FindObject(store, ref, None, fuel);
    match found
    case None => Err(NotText)
    case Some(target) =>
      if heavy then
        var (tagSha, written) :- WriteObject(store, TagObject(name, target), hash);
        CreateRef(written, path, name, tagSha)
      else
        CreateRef(store, path, name, target)
  }

  /** `ref` names exactly one object and peels to a digest. */
  predicate PeelsToDigest(store: Node, ref: Text, fuel: nat) {
    var found := FindObject(store, ref, None, fuel);
    found.Ok? && found.value.Some? && IsDigest(found.value.value)
  }

  /** A light tag: in a store with room for it, the new reference resolves to
      what `ref` peels to. */
  lemma {:induction false} LightTag(store: Node, path: Text, name: Text, ref: Text, hash: Bytes -> Digest, fuel: nat)
    requires IsComponent(path) && IsComponent(name) && fuel > 0
    requires HasRefsFolder(store) && RefIsFree(store, path, name) && PeelsToDigest(store, ref, fuel)
    ensures CreateTag(store, path, name, ref, false, hash, fuel).Ok?
    ensures ResolveReference(CreateTag(store, path, name, ref, false, hash, fuel).value, PathJoin(RefsDir, path), name, fuel)
              == FindObject(store, ref, None, fuel)
  {
    ResolveCreatedRef(store, path, name, FindObject(store, ref, None, fuel).value.value, fuel);
  }

  /** The dictionary `create_tag` builds is written as its read-back form. */
  lemma TagDictionaryWrites(name: Text, target: Text)
    ensures Serialize(TagObject(name, target)) == Serialize(GitTag(TagDictionaryRead(name, target)))
    ensures Serialize(TagObject(name, target)).Ok?
  {
    var a := TagDictionary(name, target).fields;
    var b := TagDictionaryRead(name, target).fields;
    assert Kvlm.HeaderLines(a[2..]) == Kvlm.HeaderLines(b[2..]);
    assert Kvlm.HeaderLines(a[1..]) == Kvlm.HeaderLines(b[1..]);
  }

  /** The read-back dictionary survives another write and read. */
  lemma TagDictionaryWellFormed(name: Text, target: Text)
    requires |name| > 0 && NL !in name && NL !in target
    ensures Kvlm.WellFormed(TagDictionaryRead(name, target))
  {
    TagMessagePlain();
    TagKeysPlain();
    var kv := TagDictionaryRead(name, target);
    assert forall i :: 0 <= i < |kv.fields| ==> Kvlm.WellFormedField(kv.fields[i]);
  }

  /** The tag message is one line with nothing to strip. */
  lemma TagMessagePlain()
    ensures |TagMessage| > 0 && NL !in TagMessage && Strip(TagMessage, StrWhitespace) == TagMessage
  {
    assert !IsSpace(TagMessage[0], StrWhitespace) && !IsSpace(TagMessage[|TagMessage| - 1], StrWhitespace);
  }

  /** The tag dictionary's keys are non-empty, free of spaces and newlines, and
      distinct. */
  lemma TagKeysPlain()
    ensures forall k :: k in [TagKey, TypeKey, ObjectKey] ==> |k| > 0 && SP !in k && NL !in k
    ensures TagKey != TypeKey && TagKey != ObjectKey && TypeKey != ObjectKey
    ensures NL !in CommitFormat
  {
  }

  /** What `ref` peels to, when that is a digest. */
  function Target(store: Node, ref: Text, fuel: nat): Digest
    requires PeelsToDigest(store, ref, fuel)
  {
    FindObject(store, ref, None, fuel).value.value
  }

  /** The tag object a heavy tag writes. */
  function TagObject(name: Text, target: Text): GitObject {
    GitTag(TagDictionary(name, target))
  }

  /** The tag object is written exactly as its read-back form. */
  lemma TagObjectWrites(name: Text, target: Text, store: Node, hash: Bytes -> Digest)
    ensures Serialize(TagObject(name, target)) == Serialize(GitTag(TagDictionaryRead(name, target)))
    ensures Serialize(TagObject(name, target)).Ok?
    ensures WriteObject(store, TagObject(name, target), hash) == WriteObject(store, GitTag(TagDictionaryRead(name, target)), hash)
  {
    TagDictionaryWrites(name, target);
    WriteSameContent(store, TagObject(name, target), GitTag(TagDictionaryRead(name, target)), hash);
  }

  /** `.git/objects` and `.git/refs` have no path in common below `.git`. */
  lemma {:induction false} WriteKeepsRef(store: Node, obj: GitObject, hash: Bytes -> Digest, path: Text, name: Text)
    requires IsComponent(path) && IsComponent(name)
    requires WriteObject(store, obj, hash).Ok?
    requires HasRefsFolder(store) && RefIsFree(store, path, name)
    ensures HasRefsFolder(WriteObject(store, obj, hash).value.1)
    ensures RefIsFree(WriteObject(store, obj, hash).value.1, path, name)
  {
    var written := WriteObject(store, obj, hash).value.1;
    RefsDirComponents();
    RefPathComponents(path, name);
    var objects := [GitDir, ObjectsDir];
    var refs := [GitDir, RefsName];
    var dir := [GitDir, RefsName, path];
    assert refs[1] != objects[1] && dir[1] != objects[1] && (dir + [name])[1] != objects[1];
    WriteFrame(store, obj, hash, refs);
    WriteFrame(store, obj, hash, dir);
    WriteFrame(store, obj, hash, dir + [name]);
    assert Get(written, RefsDir) == Get(store, RefsDir);
    assert Get(written, PathJoin(RefsDir, path)) == Get(store, PathJoin(RefsDir, path));
    assert Get(written, RefPath(path, name)) == Get(store, RefPath(path, name));
  }

  lemma {:induction false} CreateRefKeepsObject(store: Node, path: Text, name: Text, sha: Digest)
    requires IsComponent(path) && IsComponent(name)
    requires CreateRef(store, path, name, sha).Ok?
    ensures ReadObject(CreateRef(store, path, name, sha).value, sha) == ReadObject(store, sha)
  {
    var after := CreateRef(store, path, name, sha).value;
    var q := ObjectComponents(sha);
    ObjectPathComponents(sha);
    assert q[1] == ObjectsDir && ObjectsDir != RefsName;
    assert q[1] != [GitDir, RefsName][1];
    CreateRefFrame(store, path, name, sha, q);
    ReadSameObject(after, store, sha);
  }

  /** Writing the tag object for `target` and referring to it: the reference
      resolves to the object's digest, and the object reads back. */
  lemma {:induction false} TagObjectStored(store: Node, path: Text, name: Text, target: Text, hash: Bytes -> Digest, fuel: nat)
    requires IsComponent(path) && IsComponent(name) && NL !in name && NL !in target && fuel > 0
    requires HasObjectsFolder(store) && HasRefsFolder(store) && RefIsFree(store, path, name)
    requires Serialize(TagObject(name, target)).Ok? && ObjectIsFree(store, TagObject(name, target), hash)
    ensures WriteObject(store, TagObject(name, target), hash).Ok?
    ensures var w := WriteObject(store, TagObject(name, target), hash).value;
            && CreateRef(w.1, path, name, w.0).Ok?
            && ResolveReference(CreateRef(w.1, path, name, w.0).value, PathJoin(RefsDir, path), name, fuel) == Ok(Some(w.0))
            && ReadObject(CreateRef(w.1, path, name, w.0).value, w.0) == Ok(GitTag(TagDictionaryRead(name, target)))
  {
    var tagRead := GitTag(TagDictionaryRead(name, target));
    TagObjectWrites(name, target, store, hash);
    TagDictionaryWellFormed(name, target);
    assert DigestOf(tagRead, hash) == DigestOf(TagObject(name, target), hash);
    ReadWritten(store, tagRead, hash);
    var (tagSha, written) := WriteObject(store, tagRead, hash).value;
    WriteKeepsRef(store, tagRead, hash, path, name);
    ResolveCreatedRef(written, path, name, tagSha, fuel);
    CreateRefKeepsObject(written, path, name, tagSha);
  }

  /** A heavy tag: in a store with room for the tag object and the reference,
      the reference resolves to the tag object's digest, and that object reads
      back as the tag dictionary for the digest `ref` peels to. */
  lemma {:induction false} HeavyTag(store: Node, path: Text, name: Text, ref: Text, hash: Bytes -> Digest, fuel: nat)
    requires IsComponent(path) && IsComponent(name) && NL !in name && fuel > 0
    requires HasObjectsFolder(store) && HasRefsFolder(store) && RefIsFree(store, path, name)
    requires PeelsToDigest(store, ref, fuel)
    requires Serialize(TagObject(name, Target(store, ref, fuel))).Ok?
    requires ObjectIsFree(store, TagObject(name, Target(store, ref, fuel)), hash)
    ensures CreateTag(store, path, name, ref, true, hash, fuel).Ok?
    ensures var tagSha := DigestOf(TagObject(name, Target(store, ref, fuel)), hash);
            var after := CreateTag(store, path, name, ref, true, hash, fuel).value;
            && ResolveReference(after, PathJoin(RefsDir, path), name, fuel) == Ok(Some(tagSha))
            && ReadObject(after, tagSha) == Ok(GitTag(TagDictionaryRead(name, Target(store, ref, fuel))))
  {
    var target := Target(store, ref, fuel);
    DigestIsPlain(target);
    TagObjectStored(store, path, name, target, hash, fuel);
    CreateHeavyTag(store, path, name, ref, hash, fuel);
    var w := WriteObject(store, TagObject(name, target), hash).value;
    var after := CreateRef(w.1, path, name, w.0).value;
    assert CreateTag(store, path, name, ref, true, hash, fuel) == Ok(after);
    assert ReadObject(after, w.0) == Ok(GitTag(TagDictionaryRead(name, target)));
  }

  /** `_find_object` on the tag object, read back, peels it to the tagged
      digest. */
  lemma TagNamesTarget(name: Text, target: Text)
    ensures FirstValue(TagDictionaryRead(name, target), ObjectKey) == Ok(target)
  {
    var fs := TagDictionaryRead(name, target).fields;
    assert fs[2].key == ObjectKey && fs[0].key != ObjectKey && fs[1].key != ObjectKey;
    assert Kvlm.KeyIndex(fs, ObjectKey) == Some(2);
  }

  /** `create_tag` with a tag object, once `ref` has peeled to a digest. */
  lemma CreateHeavyTag(store: Node, path: Text, name: Text, ref: Text, hash: Bytes -> Digest, fuel: nat)
    requires PeelsToDigest(store, ref, fuel)
    ensures CreateTag(store, path, name, ref, true, hash, fuel) ==
              match WriteObject(store, TagObject(name, Target(store, ref, fuel)), hash)
              case Err(e) => Err(e)
              case Ok(written) => CreateRef(written.1, path, name, written.0)
  {
  }

  /** Looking a reference up depends only on the components of its path. */
  lemma {:induction false} ResolveByComponents(store: Node, p: Text, q: Text, fuel: nat)
    requires Components(p) == Components(q)
    ensures Resolve(store, p, fuel) == Resolve(store, q, fuel)
  {
    if fuel > 0 {
      assert StepAt(store, p) == StepAt(store, q);
    }
  }

  /** ".git/refs/<sub>" joined with a name is the path `create_ref(sub, name, _)`
      sets. */
  lemma RefsSubdirPath(sub: Text, name: Text)
    requires IsComponent(sub) && IsComponent(name)
    ensures Components(PathJoin(Join([GitDir, RefsName, sub], [SLASH]), name)) == Components(RefPath(sub, name))
  {
    RefPathComponents(sub, name);
    assert AllComponents([GitDir, RefsName, sub]) by {
      assert SLASH !in GitDir && SLASH !in RefsName;
    }
    ComponentsOfJoin([GitDir, RefsName, sub]);
    ComponentAlone(name);
    ComponentsOfPathJoin(Join([GitDir, RefsName, sub], [SLASH]), name);
  }

  /** A light tag under ".git/refs/<sub>" resolves, looked up from that folder,
      to what `ref` peels to. */
  lemma {:induction false} LightTagUnder(store: Node, sub: Text, name: Text, ref: Text, hash: Bytes -> Digest, fuel: nat)
    requires IsComponent(sub) && IsComponent(name) && fuel > 0
    requires HasRefsFolder(store) && RefIsFree(store, sub, name) && PeelsToDigest(store, ref, fuel)
    ensures CreateTag(store, sub, name, ref, false, hash, fuel).Ok?
    ensures ResolveReference(CreateTag(store, sub, name, ref, false, hash, fuel).value, Join([GitDir, RefsName, sub], [SLASH]), name, fuel)
              == Ok(Some(Target(store, ref, fuel)))
  {
    LightTag(store, sub, name, ref, hash, fuel);
    RefsSubdirPath(sub, name);
    var after := CreateTag(store, sub, name, ref, false, hash, fuel).value;
    ResolveByComponents(after, PathJoin(Join([GitDir, RefsName, sub], [SLASH]), name), RefPath(sub, name), fuel);
  }

  /** A name whose tag resolves to a non-empty digest finds that digest first. */
  lemma {:induction false} TagComesFirst(store: Node, name: Text, fuel: nat, target: Text)
    requires |name| > 0 && !IsHexName(name) && |target| > 0
    requires ResolveReference(store, TagsDir, name, fuel) == Ok(Some(target))
    ensures FindHashes(store, name, fuel).Ok?
    ensures |FindHashes(store, name, fuel).value| > 0 && FindHashes(store, name, fuel).value[0] == target
  {
  }

  /** After a light tag is created under "tags", a name that is not
      hexadecimal finds the tagged digest first. */
  lemma {:induction false} TagFoundByName(store: Node, name: Text, ref: Text, hash: Bytes -> Digest, fuel: nat)
    requires IsComponent(name) && !IsHexName(name) && fuel > 0
    requires HasRefsFolder(store) && RefIsFree(store, TagsName, name) && PeelsToDigest(store, ref, fuel)
    ensures CreateTag(store, TagsName, name, ref, false, hash, fuel).Ok?
    ensures var found := FindHashes(CreateTag(store, TagsName, name, ref, false, hash, fuel).value, name, fuel);
            found.Ok? && |found.value| > 0 && found.value[0] == Target(store, ref, fuel)
  {
    FolderNamesAreComponents();
    LightTagUnder(store, TagsName, name, ref, hash, fuel);
    var after := CreateTag(store, TagsName, name, ref, false, hash, fuel).value;
    TagComesFirst(after, name, fuel, Target(store, ref, fuel));
  }

  /** `create_branch(name)`: a light tag under heads for whatever `main` peels
      to. */
  function CreateBranch(store: Node, name: Text, hash: Bytes -> Digest, fuel: nat): Result<Node> {
    CreateTag(store, HeadsName, name, MainName, false, hash, fuel)
  }

  /** A new branch, looked up under heads, resolves to what `main` peels to. */
  lemma {:induction false} BranchResolves(store: Node, name: Text, hash: Bytes -> Digest, fuel: nat)
    requires IsComponent(name) && fuel > 0
    requires HasRefsFolder(store) && RefIsFree(store, HeadsName, name) && PeelsToDigest(store, MainName, fuel)
    ensures CreateBranch(store, name, hash, fuel).Ok?
    ensures ResolveReference(CreateBranch(store, name, hash, fuel).value, HeadsDir, name, fuel) == Ok(Some(Target(store, MainName, fuel)))
  {
    FolderNamesAreComponents();
    LightTagUnder(store, HeadsName, name, MainName, hash, fuel);
  }
}
