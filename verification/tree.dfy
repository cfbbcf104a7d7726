/** Tree objects: the binary record list `<mode> <path>\0<20-byte sha>` that
    `read_tree_node` / `read_tree` parse and `GitTree.serialize` writes after
    sorting with `tree_order_fn`. */
module Tree {
  import opened Wrappers
  import opened Bytes
  import opened Strings

  /** One record of a tree: mode, path and hexadecimal digest, all as text. */
  datatype TreeNode = TreeNode(mode: Text, path: Text, sha: Text)

  /** "10", the mode prefix of regular files and symlinks. */
  const FileModePrefix: Text := [0x31, 0x30]

  /** The length of a binary SHA-1 digest. */
  const ShaLength: nat := 20

  // ---------------------------------------------------------------------------
  // read_tree_node / read_tree

  /** `read_tree_node(data, start)`: the offset after the record and the record.
      The mode runs from `start` to the first space and must be 5 or 6 bytes long;
      it gets a leading space only when that space sits at absolute offset 5. The
      path runs to the next NUL, and the 20 bytes after it are the digest. */
  function ReadNode(data: Bytes, start: nat): (r: Result<(nat, TreeNode)>)
    ensures r.Ok? ==> start < r.value.0 <= |data|
    ensures r.Err? ==> r.error == BadMode || r.error == MissingNul || r.error == Truncated
  {
    match Find(data, SP, start)
    case None => Err(BadMode)
    case Some(sep) =>
      if sep - start < 5 then Err(BadMode)
      else if sep - start > 6 then Err(BadMode)
      else
        var mode := if sep == 5 then [SP] + data[start..sep] else data[start..sep];
        match Find(data, NUL, sep)
        case None => Err(MissingNul)
        case Some(p) =>
          if p + ShaLength + 1 > |data| then Err(Truncated)
          else
            Ok((p + ShaLength + 1, TreeNode(mode, data[sep + 1..p], ShaFromBytes(data[p + 1..p + ShaLength + 1]))))
  }

  /** What `read_tree_node` gives for any input: a 5- or 6-byte mode (6 bytes at
      offset 0), a path without NUL, a digest in `hexdigest()` form, and a mode
      error exactly when no space lies 5 or 6 bytes after `start`. */
  lemma {:induction false} ReadNodeShape(data: Bytes, start: nat)
    ensures var r := ReadNode(data, start);
            && (r.Ok? ==> 5 <= |r.value.1.mode| <= 6)
            && (r.Ok? && start == 0 ==> |r.value.1.mode| == 6)
            && (r.Ok? ==> NUL !in r.value.1.path && IsDigest(r.value.1.sha))
            && (r.Err? ==> r.error in {BadMode, MissingNul, Truncated})
            && ((r.Err? && r.error == BadMode) <==>
                (Find(data, SP, start).None? || !(start + 5 <= Find(data, SP, start).value <= start + 6)))
  {
    var sp := Find(data, SP, start);
    if sp.Some? && start + 5 <= sp.value <= start + 6 {
      var sep := sp.value;
      FindFirst(data, NUL, sep);
      var p := Find(data, NUL, sep);
      if p.Some? && p.value + ShaLength + 1 <= |data| {
        var path := data[sep + 1..p.value];
        assert forall i :: 0 <= i < |path| ==> path[i] == data[sep + 1 + i];
      }
    }
  }

  /** `read_tree` from offset `pos`: records one after another up to the end. */
  function ReadTreeFrom(data: Bytes, pos: nat): (r: Result<seq<TreeNode>>)
    ensures r.Err? ==> r.error == BadMode || r.error == MissingNul || r.error == Truncated
    decreases |data| - pos
  {
    if pos >= |data| then Ok([])
    else
      var (next, node) :- ReadNode(data, pos);
      var rest :- ReadTreeFrom(data, next);
      Ok([node] + rest)
  }

  /** `read_tree(data)`. */
  function ReadTree(data: Bytes): (r: Result<seq<TreeNode>>)
    ensures r.Err? ==> r.error == BadMode || r.error == MissingNul || r.error == Truncated
  {
    ReadTreeFrom(data, 0)
  }

  /** Every node `read_tree` gives back has a digest in `hexdigest()` form, a
      path without NUL and a 5- or 6-byte mode; the first has a 6-byte mode. */
  lemma {:induction false} ReadTreeFromShape(data: Bytes, pos: nat)
    ensures var r := ReadTreeFrom(data, pos);
            && (r.Ok? ==> forall i :: 0 <= i < |r.value| ==>
                  IsDigest(r.value[i].sha) && NUL !in r.value[i].path && 5 <= |r.value[i].mode| <= 6)
            && (r.Ok? && pos == 0 && |r.value| > 0 ==> |r.value[0].mode| == 6)
    decreases |data| - pos
  {
    if pos < |data| {
      ReadNodeShape(data, pos);
      var n := ReadNode(data, pos);
      if n.Ok? {
        ReadTreeFromShape(data, n.value.0);
      }
    }
  }

  lemma {:induction false} ReadTreeShape(data: Bytes)
    ensures |data| == 0 ==> ReadTree(data) == Ok([])
    ensures ReadTree(data).Ok? ==> forall i :: 0 <= i < |ReadTree(data).value| ==>
              IsDigest(ReadTree(data).value[i].sha) && NUL !in ReadTree(data).value[i].path
    ensures ReadTree(data).Ok? && |ReadTree(data).value| > 0 ==> |ReadTree(data).value[0].mode| == 6
  {
    ReadTreeFromShape(data, 0);
  }

  // ---------------------------------------------------------------------------
  // tree_order_fn and sorting

  /** `tree_order_fn`: the path, with a "/" appended only for a node whose mode
      does not start with "10" and whose path already ends with "/". */
  function OrderKey(n: TreeNode): (k: Text)
    ensures k == n.path || k == n.path + [SLASH]
    ensures StartsWith(n.mode, FileModePrefix) ==> k == n.path
    ensures !EndsWith(n.path, [SLASH]) ==> k == n.path
  {
    if StartsWith(n.mode, FileModePrefix) then n.path
    else if EndsWith(n.path, [SLASH]) then n.path + [SLASH]
    else n.path
  }

  /** Python's `<=` on strings: code-point order, which on UTF-8 bytes is
      byte-lexicographic order. */
  predicate LexLe(a: Bytes, b: Bytes)
    decreases |a|
  {
    |a| == 0 || (|b| > 0 && (a[0] < b[0] || (a[0] == b[0] && LexLe(a[1..], b[1..]))))
  }

  lemma LexLeRefl(a: Bytes)
    ensures LexLe(a, a)
  {
  }

  lemma LexLeTotal(a: Bytes, b: Bytes)
    ensures LexLe(a, b) || LexLe(b, a)
  {
  }

  lemma LexLeTrans(a: Bytes, b: Bytes, c: Bytes)
    requires LexLe(a, b) && LexLe(b, c)
    ensures LexLe(a, c)
  {
  }

  predicate Sorted(s: seq<TreeNode>) {
    forall i :: 0 < i < |s| ==> LexLe(OrderKey(s[i - 1]), OrderKey(s[i]))
  }

  /** The nodes of `s` whose key is `k`, in order. */
  function WithKey(s: seq<TreeNode>, k: Text): (r: seq<TreeNode>)
    ensures forall i :: 0 <= i < |r| ==> OrderKey(r[i]) == k
  {
    if |s| == 0 then []
    else if OrderKey(s[0]) == k then [s[0]] + WithKey(s[1..], k)
    else WithKey(s[1..], k)
  }

  /** Puts `x` in front of the first node whose key is not smaller than its own. */
  function Insert(x: TreeNode, s: seq<TreeNode>): (r: seq<TreeNode>)
    ensures |r| == |s| + 1
    ensures multiset(r) == multiset(s) + multiset{x}
    ensures r[0] == x || (|s| > 0 && r[0] == s[0])
    ensures Sorted(s) ==> Sorted(r)
  {
    if |s| == 0 then [x]
    else if LexLe(OrderKey(x), OrderKey(s[0])) then [x] + s
    else
      var rest := Insert(x, s[1..]);
      var r := [s[0]] + rest;
      assert multiset(r) == multiset(s) + multiset{x} by {
        assert s == [s[0]] + s[1..];
      }
      assert Sorted(s) ==> Sorted(r) by {
        if Sorted(s) {
          LexLeTotal(OrderKey(x), OrderKey(s[0]));
          SortedTail(s);
          SortedCons(s[0], rest);
        }
      }
      r
  }

  lemma {:induction false} SortedTail(s: seq<TreeNode>)
    requires Sorted(s) && |s| > 0
    ensures Sorted(s[1..])
  {
    forall i | 0 < i < |s[1..]|
      ensures LexLe(OrderKey(s[1..][i - 1]), OrderKey(s[1..][i]))
    {
      assert s[1..][i - 1] == s[i] && s[1..][i] == s[i + 1];
    }
  }

  lemma {:induction false} SortedCons(x: TreeNode, s: seq<TreeNode>)
    requires Sorted(s) && (|s| > 0 ==> LexLe(OrderKey(x), OrderKey(s[0])))
    ensures Sorted([x] + s)
  {
    var r := [x] + s;
    forall i | 0 < i < |r|
      ensures LexLe(OrderKey(r[i - 1]), OrderKey(r[i]))
    {
      if i > 1 {
        assert r[i - 1] == s[i - 2] && r[i] == s[i - 1];
      }
    }
  }

  /** `sorted(nodes, key=tree_order_fn)`: a stable sort by key. */
  function SortByKey(t: seq<TreeNode>): (r: seq<TreeNode>)
    ensures |r| == |t|
    ensures multiset(r) == multiset(t)
    ensures Sorted(r)
  {
    if |t| == 0 then []
    else
      assert t == [t[0]] + t[1..];
      Insert(t[0], SortByKey(t[1..]))
  }

  /** Inserting `x` in front of `s`. */
  lemma {:induction false} WithKeyFront(x: TreeNode, s: seq<TreeNode>, k: Text)
    ensures WithKey([x] + s, k) == (if OrderKey(x) == k then [x] else []) + WithKey(s, k)
  {
    assert ([x] + s)[1..] == s;
  }

  /** Inserting `x` behind the first node of `s`, whose key differs from its own:
      `r` stands for the insertion into the rest of `s`. */
  lemma {:induction false} WithKeyBehind(x: TreeNode, s: seq<TreeNode>, r: seq<TreeNode>, k: Text)
    requires |s| > 0 && OrderKey(x) != OrderKey(s[0])
    requires WithKey(r, k) == (if OrderKey(x) == k then [x] else []) + WithKey(s[1..], k)
    ensures WithKey([s[0]] + r, k) == (if OrderKey(x) == k then [x] else []) + WithKey(s, k)
  {
    var front := if OrderKey(s[0]) == k then [s[0]] else [];
    var mine := if OrderKey(x) == k then [x] else [];
    assert WithKey([s[0]] + r, k) == front + WithKey(r, k) by {
      WithKeyFront(s[0], r, k);
    }
    assert WithKey(s, k) == front + WithKey(s[1..], k) by {
      WithKeyFront(s[0], s[1..], k);
      assert [s[0]] + s[1..] == s;
    }
    assert front == [] || mine == [];
    if front == [] {
      assert front + WithKey(r, k) == WithKey(r, k);
      assert front + WithKey(s[1..], k) == WithKey(s[1..], k);
    } else {
      assert mine + (front + WithKey(s[1..], k)) == front + WithKey(s[1..], k);
      assert WithKey(r, k) == WithKey(s[1..], k);
    }
  }

  lemma {:induction false} WithKeyInsert(x: TreeNode, s: seq<TreeNode>, k: Text)
    ensures WithKey(Insert(x, s), k) == (if OrderKey(x) == k then [x] else []) + WithKey(s, k)
    decreases |s|
  {
    if |s| == 0 {
      assert Insert(x, s) == [x] + s;
      WithKeyFront(x, s, k);
    } else if LexLe(OrderKey(x), OrderKey(s[0])) {
      assert Insert(x, s) == [x] + s;
      WithKeyFront(x, s, k);
    } else {
      LexLeRefl(OrderKey(x));
      WithKeyInsert(x, s[1..], k);
      assert Insert(x, s) == [s[0]] + Insert(x, s[1..]);
      WithKeyBehind(x, s, Insert(x, s[1..]), k);
    }
  }

  /** The sort is stable: the nodes with any one key keep their relative order. */
  lemma {:induction false} SortByKeyStable(t: seq<TreeNode>, k: Text)
    ensures WithKey(SortByKey(t), k) == WithKey(t, k)
    decreases |t|
  {
    if |t| > 0 {
      SortByKeyStable(t[1..], k);
      WithKeyInsert(t[0], SortByKey(t[1..]), k);
    }
  }

  // ---------------------------------------------------------------------------
  // GitTree.serialize

  /** One record on disk: `mode + b' ' + path + b'\x00' + sha`. */
  function Record(mode: Text, path: Text, digest: Bytes): (r: Bytes)
    ensures |r| == |mode| + |path| + 2 + |digest|
  {
    mode + [SP] + path + [NUL] + digest
  }

  /** The record of one node; the digest must parse as hexadecimal and fit in
      20 bytes. */
  function EncodeNode(n: TreeNode): (r: Result<Bytes>)
    ensures r.Ok? <==> ShaToBytes(n.sha).Ok?
    ensures r.Ok? ==> |r.value| == |n.mode| + |n.path| + 2 + ShaLength
  {
    var sha :- ShaToBytes(n.sha);
    Ok(Record(n.mode, n.path, sha))
  }

  function EncodeAll(ns: seq<TreeNode>): (r: Result<Bytes>)
    ensures r.Err? <==> exists i :: 0 <= i < |ns| && EncodeNode(ns[i]).Err?
  {
    if |ns| == 0 then Ok([])
    else
      var head :- EncodeNode(ns[0]);
      var tail :- EncodeAll(ns[1..]);
      assert forall i :: 1 <= i < |ns| ==> ns[i] == ns[1..][i - 1];
      Ok(head + tail)
  }

  /** `GitTree.serialize`: the nodes in key order, each encoded, concatenated;
      it fails when some node's digest does not encode. */
  function Serialize(t: seq<TreeNode>): (r: Result<Bytes>)
    ensures r.Err? <==> exists i :: 0 <= i < |t| && EncodeNode(t[i]).Err?
  {
    var sorted := SortByKey(t);
    SomeFailsPermuted(sorted, t);
    EncodeAll(sorted)
  }

  lemma {:induction false} SomeFailsPermuted(a: seq<TreeNode>, b: seq<TreeNode>)
    requires multiset(a) == multiset(b)
    ensures (exists i :: 0 <= i < |a| && EncodeNode(a[i]).Err?)
            <==> (exists i :: 0 <= i < |b| && EncodeNode(b[i]).Err?)
  {
    if exists i :: 0 <= i < |a| && EncodeNode(a[i]).Err? {
      var i :| 0 <= i < |a| && EncodeNode(a[i]).Err?;
      assert a[i] in multiset(b);
      var j :| 0 <= j < |b| && b[j] == a[i];
    }
    if exists i :: 0 <= i < |b| && EncodeNode(b[i]).Err? {
      var i :| 0 <= i < |b| && EncodeNode(b[i]).Err?;
      assert b[i] in multiset(a);
      var j :| 0 <= j < |a| && a[j] == b[i];
    }
  }

  // ---------------------------------------------------------------------------
  // Round trip

  /** A node the reader gives back: a 5- or 6-byte mode without spaces, a path
      without NUL, a digest as `hexdigest()` prints it. */
  predicate WellFormedNode(n: TreeNode) {
    && 5 <= |n.mode| <= 6 && SP !in n.mode
    && NUL !in n.path
    && IsDigest(n.sha)
  }

  /** What the reader makes of a node written at offset `pos`: a 5-byte mode
      written at offset 0 comes back with a leading space. */
  function AsRead(n: TreeNode, pos: nat): TreeNode {
    if pos == 0 && |n.mode| == 5 then n.(mode := [SP] + n.mode) else n
  }

  /** The 20 bytes a well-formed node's digest encodes to. */
  function DigestBytes(n: TreeNode): (r: Bytes)
    requires IsDigest(n.sha)
    ensures |r| == ShaLength
  {
    ShaToBytesOfDigest(n.sha);
    ShaToBytes(n.sha).value
  }

  lemma {:induction false} EncodeWellFormed(n: TreeNode)
    requires WellFormedNode(n)
    ensures EncodeNode(n) == Ok(Record(n.mode, n.path, DigestBytes(n)))
  {
    ShaToBytesOfDigest(n.sha);
  }

  /** The digest comes back from its bytes. */
  lemma {:induction false} DigestRoundTrip(n: TreeNode)
    requires IsDigest(n.sha)
    ensures ShaFromBytes(DigestBytes(n)) == n.sha
  {
    ShaRoundTrip(n.sha);
  }

  /** The space after the mode is the first one from the start of the record. */
  lemma {:induction false} RecordSpace(pre: Bytes, mode: Text, path: Text, digest: Bytes, rest: Bytes)
    requires forall i :: 0 <= i < |mode| ==> mode[i] != SP
    ensures Find(pre + Record(mode, path, digest) + rest, SP, |pre|) == Some(|pre| + |mode|)
  {
    var data := pre + Record(mode, path, digest) + rest;
    var s := |pre| + |mode|;
    assert data == (pre + mode) + ([SP] + path + [NUL] + digest + rest);
    assert forall i :: |pre| <= i < s ==> data[i] == mode[i - |pre|];
    FindAt(data, SP, |pre|, s);
  }

  /** The NUL after the path is the first one after the space. */
  lemma {:induction false} RecordNul(pre: Bytes, mode: Text, path: Text, digest: Bytes, rest: Bytes)
    requires forall i :: 0 <= i < |path| ==> path[i] != NUL
    ensures Find(pre + Record(mode, path, digest) + rest, NUL, |pre| + |mode|)
            == Some(|pre| + |mode| + 1 + |path|)
  {
    var data := pre + Record(mode, path, digest) + rest;
    var s := |pre| + |mode|;
    var p := s + 1 + |path|;
    assert data == (pre + mode + [SP]) + path + ([NUL] + digest + rest);
    assert forall i :: s < i < p ==> data[i] == path[i - s - 1];
    FindAt(data, NUL, s, p);
  }

  /** Where the fields of a record fall. */
  lemma {:induction false} RecordFields(pre: Bytes, mode: Text, path: Text, digest: Bytes, rest: Bytes)
    ensures var data, s := pre + Record(mode, path, digest) + rest, |pre| + |mode|;
            && data[|pre|..s] == mode
            && data[s + 1..s + 1 + |path|] == path
            && data[s + 2 + |path|..s + 2 + |path| + |digest|] == digest
  {
    var data := pre + Record(mode, path, digest) + rest;
    assert data == pre + mode + [SP] + path + [NUL] + digest + rest;
  }

  /** Reading a record at offset `|pre|` gives its fields back, the mode padded
      when it is 5 bytes long at offset 0. */
  lemma {:induction false} ReadRecord(pre: Bytes, mode: Text, path: Text, digest: Bytes, rest: Bytes)
    requires 5 <= |mode| <= 6 && SP !in mode && NUL !in path && |digest| == ShaLength
    ensures ReadNode(pre + Record(mode, path, digest) + rest, |pre|)
            == Ok((|pre| + |Record(mode, path, digest)|,
                   TreeNode(if |pre| == 0 && |mode| == 5 then [SP] + mode else mode, path, ShaFromBytes(digest))))
  {
    var data := pre + Record(mode, path, digest) + rest;
    var s := |pre| + |mode|;
    var p := s + 1 + |path|;
    assert Find(data, SP, |pre|) == Some(s) by {
      assert forall i :: 0 <= i < |mode| ==> mode[i] != SP;
      RecordSpace(pre, mode, path, digest, rest);
    }
    assert Find(data, NUL, s) == Some(p) by {
      assert forall i :: 0 <= i < |path| ==> path[i] != NUL;
      RecordNul(pre, mode, path, digest, rest);
    }
    assert data[|pre|..s] == mode && data[s + 1..p] == path && data[p + 1..p + 1 + ShaLength] == digest by {
      RecordFields(pre, mode, path, digest, rest);
    }
  }

  /** Digest bytes `d` spell the digest of a well-formed node `n`. */
  predicate Spells(n: TreeNode, d: Bytes) {
    WellFormedNode(n) && |d| == ShaLength && ShaFromBytes(d) == n.sha
  }

  /** Reading the record of a node gives the node back, its mode padded when it
      is a 5-byte mode at offset 0. */
  lemma {:induction false} ReadRecordOf(data: Bytes, pre: Bytes, n: TreeNode, d: Bytes, rec: Bytes, rest: Bytes)
    requires Spells(n, d) && rec == Record(n.mode, n.path, d) && data == pre + rec + rest
    ensures ReadNode(data, |pre|) == Ok((|pre| + |rec|, AsRead(n, |pre|)))
  {
    ReadRecord(pre, n.mode, n.path, d, rest);
  }

  /** The same for the bytes `EncodeNode` gives. */
  lemma {:induction false} ReadEncodedNode(data: Bytes, pre: Bytes, n: TreeNode, e: Bytes, rest: Bytes)
    requires WellFormedNode(n) && EncodeNode(n) == Ok(e) && data == pre + e + rest
    ensures ReadNode(data, |pre|) == Ok((|pre| + |e|, AsRead(n, |pre|)))
  {
    EncodedSpells(n);
    ReadRecordOf(data, pre, n, DigestBytes(n), e, rest);
  }

  /** A well-formed node's record holds digest bytes that spell its digest. */
  lemma {:induction false} EncodedSpells(n: TreeNode)
    requires WellFormedNode(n)
    ensures EncodeNode(n) == Ok(Record(n.mode, n.path, DigestBytes(n))) && Spells(n, DigestBytes(n))
  {
    EncodeWellFormed(n);
    DigestRoundTrip(n);
  }

  /** The records of nodes `ns` with digest bytes `ds`, one after another. */
  function Records(ns: seq<TreeNode>, ds: seq<Bytes>): (r: Bytes)
    requires |ns| == |ds|
  {
    if |ns| == 0 then [] else Record(ns[0].mode, ns[0].path, ds[0]) + Records(ns[1..], ds[1..])
  }

  predicate AllSpell(ns: seq<TreeNode>, ds: seq<Bytes>) {
    |ns| == |ds| && forall i :: 0 <= i < |ns| ==> Spells(ns[i], ds[i])
  }

  /** The digest bytes of well-formed nodes. */
  function Digests(ns: seq<TreeNode>): (ds: seq<Bytes>)
    requires forall i :: 0 <= i < |ns| ==> WellFormedNode(ns[i])
    ensures |ds| == |ns|
  {
    if |ns| == 0 then []
    else
      assert WellFormedNode(ns[0]);
      [DigestBytes(ns[0])] + Digests(ns[1..])
  }

  lemma {:induction false} DigestsSpell(ns: seq<TreeNode>)
    requires forall i :: 0 <= i < |ns| ==> WellFormedNode(ns[i])
    ensures AllSpell(ns, Digests(ns))
    decreases |ns|
  {
    if |ns| > 0 {
      DigestsSpell(ns[1..]);
      DigestRoundTrip(ns[0]);
      var ds := Digests(ns);
      assert ds[0] == DigestBytes(ns[0]) && ds[1..] == Digests(ns[1..]);
      forall i | 0 <= i < |ns|
        ensures Spells(ns[i], ds[i])
      {
        if i > 0 {
          assert ns[i] == ns[1..][i - 1] && ds[i] == ds[1..][i - 1];
        }
      }
    }
  }

  lemma {:induction false} EncodeAllWellFormed(ns: seq<TreeNode>)
    requires forall i :: 0 <= i < |ns| ==> WellFormedNode(ns[i])
    ensures EncodeAll(ns) == Ok(Records(ns, Digests(ns)))
    decreases |ns|
  {
    if |ns| > 0 {
      assert EncodeNode(ns[0]) == Ok(Record(ns[0].mode, ns[0].path, DigestBytes(ns[0]))) by {
        EncodeWellFormed(ns[0]);
      }
      assert EncodeAll(ns[1..]) == Ok(Records(ns[1..], Digests(ns[1..]))) by {
        EncodeAllWellFormed(ns[1..]);
      }
      var ds := Digests(ns);
      assert ds[0] == DigestBytes(ns[0]) && ds[1..] == Digests(ns[1..]);
    }
  }

  function PadFirst(ns: seq<TreeNode>): seq<TreeNode> {
    if |ns| == 0 then [] else [AsRead(ns[0], 0)] + ns[1..]
  }

  /** `read_tree` past one record: the record's node, then whatever follows. */
  lemma {:induction false} ReadTreeFromStep(data: Bytes, pos: nat, next: nat, node: TreeNode, rest: seq<TreeNode>)
    requires pos < |data| && ReadNode(data, pos) == Ok((next, node))
    requires ReadTreeFrom(data, next) == Ok(rest)
    ensures ReadTreeFrom(data, pos) == Ok([node] + rest)
  {
  }

  /** `read_tree` from `offsets[k]` when the record at every offset ends where
      the next one starts and the last one ends with the data. */
  lemma {:induction false} ReadTreeFromChain(data: Bytes, offsets: seq<nat>, nodes: seq<TreeNode>, k: nat)
    requires |offsets| == |nodes| + 1 && offsets[|nodes|] == |data| && k <= |nodes|
    requires forall i :: k <= i < |nodes| ==>
               offsets[i] < |data| && ReadNode(data, offsets[i]) == Ok((offsets[i + 1], nodes[i]))
    ensures ReadTreeFrom(data, offsets[k]) == Ok(nodes[k..])
    decreases |nodes| - k
  {
    if k < |nodes| {
      ReadTreeFromChain(data, offsets, nodes, k + 1);
      ChainLink(data, offsets, nodes, k);
      ReadTreeFromStep(data, offsets[k], offsets[k + 1], nodes[k], nodes[k + 1..]);
    } else {
      assert offsets[k] == |data| && nodes[k..] == [];
    }
  }

  /** One link of the chain: the record at `offsets[k]` and the nodes after it. */
  lemma {:induction false} ChainLink(data: Bytes, offsets: seq<nat>, nodes: seq<TreeNode>, k: nat)
    requires |offsets| == |nodes| + 1 && k < |nodes|
    requires forall i :: k <= i < |nodes| ==>
               offsets[i] < |data| && ReadNode(data, offsets[i]) == Ok((offsets[i + 1], nodes[i]))
    ensures offsets[k] < |data| && ReadNode(data, offsets[k]) == Ok((offsets[k + 1], nodes[k]))
    ensures [nodes[k]] + nodes[k + 1..] == nodes[k..]
  {
  }

  lemma {:induction false} RecordsConcat(a: seq<TreeNode>, da: seq<Bytes>, b: seq<TreeNode>, db: seq<Bytes>)
    requires |a| == |da| && |b| == |db|
    ensures Records(a + b, da + db) == Records(a, da) + Records(b, db)
    decreases |a|
  {
    if |a| == 0 {
      assert a + b == b && da + db == db;
    } else {
      RecordsConcat(a[1..], da[1..], b, db);
      assert (a + b)[1..] == a[1..] + b;
      assert (da + db)[1..] == da[1..] + db;
    }
  }

  /** The records up to index `i` and the record at `i`. */
  lemma {:induction false} RecordsSnoc(ns: seq<TreeNode>, ds: seq<Bytes>, i: nat)
    requires |ns| == |ds| && i < |ns|
    ensures Records(ns[..i + 1], ds[..i + 1]) == Records(ns[..i], ds[..i]) + Record(ns[i].mode, ns[i].path, ds[i])
  {
    var one, dOne := [ns[i]], [ds[i]];
    assert Records(one, dOne) == Record(ns[i].mode, ns[i].path, ds[i]) by {
      assert Records(one[1..], dOne[1..]) == [];
    }
    RecordsConcat(ns[..i], ds[..i], one, dOne);
    assert ns[..i] + one == ns[..i + 1] && ds[..i] + dOne == ds[..i + 1];
  }

  /** The records before the one at index `i`, the record, and those after it. */
  lemma {:induction false} RecordsAround(ns: seq<TreeNode>, ds: seq<Bytes>, i: nat)
    requires |ns| == |ds| && i < |ns|
    ensures Records(ns, ds)
            == Records(ns[..i], ds[..i]) + Record(ns[i].mode, ns[i].path, ds[i]) + Records(ns[i + 1..], ds[i + 1..])
  {
    var front, back := Records(ns[..i + 1], ds[..i + 1]), Records(ns[i + 1..], ds[i + 1..]);
    assert front == Records(ns[..i], ds[..i]) + Record(ns[i].mode, ns[i].path, ds[i]) by {
      RecordsSnoc(ns, ds, i);
    }
    assert Records(ns, ds) == front + back by {
      RecordsConcat(ns[..i + 1], ds[..i + 1], ns[i + 1..], ds[i + 1..]);
      assert ns[..i + 1] + ns[i + 1..] == ns && ds[..i + 1] + ds[i + 1..] == ds;
    }
  }

  /** Where each record starts: the length of the records before it. */
  function Offsets(ns: seq<TreeNode>, ds: seq<Bytes>): (r: seq<nat>)
    requires |ns| == |ds|
    ensures |r| == |ns| + 1
  {
    seq(|ns| + 1, i requires 0 <= i <= |ns| => |Records(ns[..i], ds[..i])|)
  }

  /** The records before index `i` end inside the data. */
  lemma {:induction false} OffsetInside(ns: seq<TreeNode>, ds: seq<Bytes>, i: nat)
    requires |ns| == |ds| && i < |ns|
    ensures Offsets(ns, ds)[i] < |Records(ns, ds)|
  {
    var pre, rest := Records(ns[..i], ds[..i]), Records(ns[i + 1..], ds[i + 1..]);
    var rec := Record(ns[i].mode, ns[i].path, ds[i]);
    assert |Records(ns, ds)| == |pre| + |rec| + |rest| by {
      RecordsAround(ns, ds, i);
    }
  }

  /** The record at index `i` reads back as its node. */
  lemma {:induction false} ReadRecordAt(ns: seq<TreeNode>, ds: seq<Bytes>, i: nat)
    requires |ns| == |ds| && i < |ns| && Spells(ns[i], ds[i])
    ensures ReadNode(Records(ns, ds), Offsets(ns, ds)[i])
            == Ok((Offsets(ns, ds)[i + 1], AsRead(ns[i], Offsets(ns, ds)[i])))
  {
    RecordsAround(ns, ds, i);
    OffsetsAt(ns, ds, i);
    ReadRecordOf(Records(ns, ds), Records(ns[..i], ds[..i]), ns[i], ds[i],
      Record(ns[i].mode, ns[i].path, ds[i]), Records(ns[i + 1..], ds[i + 1..]));
  }

  /** The offsets on either side of record `i`. */
  lemma {:induction false} OffsetsAt(ns: seq<TreeNode>, ds: seq<Bytes>, i: nat)
    requires |ns| == |ds| && i < |ns|
    ensures Offsets(ns, ds)[i] == |Records(ns[..i], ds[..i])|
    ensures Offsets(ns, ds)[i + 1]
            == |Records(ns[..i], ds[..i])| + |Record(ns[i].mode, ns[i].path, ds[i])|
  {
    RecordsSnoc(ns, ds, i);
  }

  /** Past the first record every offset is positive. */
  lemma {:induction false} OffsetsPositive(ns: seq<TreeNode>, ds: seq<Bytes>, i: nat)
    requires |ns| == |ds| && 0 < i <= |ns|
    ensures Offsets(ns, ds)[i] > 0
  {
    RecordsSnoc(ns, ds, i - 1);
  }

  /** Reading the records of nodes whose digest bytes spell their digests gives
      the nodes back, the first padded when its mode is 5 bytes long. */
  lemma {:induction false} ReadRecords(ns: seq<TreeNode>, ds: seq<Bytes>)
    requires AllSpell(ns, ds)
    ensures ReadTreeFrom(Records(ns, ds), 0) == Ok(PadFirst(ns))
  {
    var data, o := Records(ns, ds), Offsets(ns, ds);
    var nodes := PadFirst(ns);
    assert o[0] == 0 by {
      assert ns[..0] == [] && ds[..0] == [];
    }
    assert o[|ns|] == |data| by {
      assert ns[..|ns|] == ns && ds[..|ds|] == ds;
    }
    forall i | 0 <= i < |ns|
      ensures o[i] < |data| && ReadNode(data, o[i]) == Ok((o[i + 1], nodes[i]))
    {
      OffsetInside(ns, ds, i);
      ReadRecordAt(ns, ds, i);
      if i > 0 {
        OffsetsPositive(ns, ds, i);
      }
    }
    ReadTreeFromChain(data, o, nodes, 0);
    assert nodes[0..] == nodes;
  }

  lemma {:induction false} SortedWellFormed(t: seq<TreeNode>)
    requires forall i :: 0 <= i < |t| ==> WellFormedNode(t[i])
    ensures forall i :: 0 <= i < |SortByKey(t)| ==> WellFormedNode(SortByKey(t)[i])
  {
    var sorted := SortByKey(t);
    forall i | 0 <= i < |sorted|
      ensures WellFormedNode(sorted[i])
    {
      assert sorted[i] in multiset(t);
    }
  }

  /** `read_tree(serialize(t))` is `t` sorted by `tree_order_fn`, except that a
      5-byte mode that ends up first comes back with a leading space. */
  lemma {:induction false} ReadSerialized(t: seq<TreeNode>)
    requires forall i :: 0 <= i < |t| ==> WellFormedNode(t[i])
    ensures Serialize(t).Ok?
    ensures ReadTree(Serialize(t).value) == Ok(PadFirst(SortByKey(t)))
  {
    var sorted := SortByKey(t);
    SortedWellFormed(t);
    EncodeAllWellFormed(sorted);
    DigestsSpell(sorted);
    ReadRecords(sorted, Digests(sorted));
  }

  lemma {:induction false} PadFirstSixByteModes(ns: seq<TreeNode>)
    requires forall i :: 0 <= i < |ns| ==> |ns[i].mode| == 6
    ensures PadFirst(ns) == ns
  {
    if |ns| > 0 {
      assert ns == [ns[0]] + ns[1..];
    }
  }

  lemma {:induction false} SortedSixByteModes(t: seq<TreeNode>)
    requires forall i :: 0 <= i < |t| ==> |t[i].mode| == 6
    ensures forall i :: 0 <= i < |SortByKey(t)| ==> |SortByKey(t)[i].mode| == 6
  {
    var sorted := SortByKey(t);
    forall i | 0 <= i < |sorted|
      ensures |sorted[i].mode| == 6
    {
      assert sorted[i] in multiset(t);
    }
  }

  /** With 6-byte modes the tree comes back exactly, in key order. */
  lemma {:induction false} ReadSerializedSixByteModes(t: seq<TreeNode>)
    requires forall i :: 0 <= i < |t| ==> WellFormedNode(t[i]) && |t[i].mode| == 6
    ensures Serialize(t).Ok?
    ensures ReadTree(Serialize(t).value) == Ok(SortByKey(t))
  {
    ReadSerialized(t);
    SortedSixByteModes(t);
    PadFirstSixByteModes(SortByKey(t));
  }

  // ---------------------------------------------------------------------------
  // Failures and quirks

  /** A 5-byte mode comes back padded to 6 bytes when its record starts the data,
      and unchanged when any other record precedes it. */
  lemma {:induction false} FiveByteModeQuirk(pre: Bytes, n: TreeNode, e: Bytes, rest: Bytes)
    requires WellFormedNode(n) && |n.mode| == 5 && EncodeNode(n) == Ok(e)
    ensures ReadNode(pre + e + rest, |pre|)
            == Ok((|pre| + |e|, if |pre| == 0 then n.(mode := [SP] + n.mode) else n))
  {
    ReadEncodedNode(pre + e + rest, pre, n, e, rest);
  }

  /** A directory whose path does not end in "/" sorts by its bare path, so the
      directory "a" goes before the file "a.txt" (Git orders a directory as its
      path followed by "/"). */
  lemma {:induction false} DirectoryKeyIsBarePath(dir: TreeNode, file: TreeNode)
    requires dir.mode == [0x34, 0x30, 0x30, 0x30, 0x30] && dir.path == [0x61]
    requires file.mode == [0x31, 0x30, 0x30, 0x36, 0x34, 0x34] && file.path == [0x61, 0x2E, 0x74, 0x78, 0x74]
    ensures OrderKey(dir) == dir.path
    ensures SortByKey([file, dir]) == [dir, file]
  {
    assert dir.mode[..2] != FileModePrefix by {
      assert dir.mode[..2][0] == 0x34;
    }
    assert StartsWith(file.mode, FileModePrefix);
    assert LexLe(OrderKey(dir), OrderKey(file));
    assert !LexLe(OrderKey(file), OrderKey(dir));
  }
}
