/** The single-document store (`JsonDatabase`): the document is a tree of
    insertion-ordered maps whose leaves hold bytes. `get` and `set` address a node
    by a "/"-separated path whose empty components are dropped. */
module Store {
  import opened Wrappers
  import opened Bytes
  import opened Strings

  /** A value of the document: stored bytes, or a map kept in insertion order. */
  datatype Node = Leaf(data: Bytes) | Folder(entries: seq<(Text, Node)>)

  // ---------------------------------------------------------------------------
  // Insertion-ordered maps (Python dicts)

  function Keys<V>(es: seq<(Text, V)>): (r: seq<Text>)
    ensures |r| == |es|
  {
    if |es| == 0 then [] else [es[0].0] + Keys(es[1..])
  }

  predicate Distinct(ks: seq<Text>) {
    forall i, j :: 0 <= i < j < |ks| ==> ks[i] != ks[j]
  }

  /** `d.get(key)`: the value of the first entry with that key. */
  function Lookup<V>(es: seq<(Text, V)>, key: Text): (r: Option<V>)
    ensures r.Some? <==> key in Keys(es)
  {
    if |es| == 0 then None
    else if es[0].0 == key then Some(es[0].1)
    else Lookup(es[1..], key)
  }

  /** `d[key] = v`: an existing key keeps its place and takes the new value; a
      new key goes last. */
  function Put<V>(es: seq<(Text, V)>, key: Text, v: V): (r: seq<(Text, V)>)
    ensures Lookup(r, key) == Some(v)
    ensures forall k :: k != key ==> Lookup(r, k) == Lookup(es, k)
    ensures Keys(r) == if key in Keys(es) then Keys(es) else Keys(es) + [key]
    ensures Lookup(es, key) == Some(v) ==> r == es
  {
    if |es| == 0 then [(key, v)]
    else if es[0].0 == key then [(key, v)] + es[1..]
    else
      var r := [es[0]] + Put(es[1..], key, v);
      assert r[1..] == Put(es[1..], key, v);
      r
  }

  /** Every entry of a map after `Put` is the new one or an old one. */
  lemma {:induction false} PutEntries<V>(es: seq<(Text, V)>, key: Text, v: V)
    ensures forall i :: 0 <= i < |Put(es, key, v)| ==> Put(es, key, v)[i] == (key, v) || Put(es, key, v)[i] in es
    decreases |es|
  {
    if |es| > 0 && es[0].0 != key {
      PutEntries(es[1..], key, v);
      var r := Put(es, key, v);
      forall i | 0 <= i < |r|
        ensures r[i] == (key, v) || r[i] in es
      {
        if i > 0 {
          assert r[i] == Put(es[1..], key, v)[i - 1];
        }
      }
    }
  }

  /** A document whose every map has distinct keys, as every Python dict does. */
  predicate WellFormed(n: Node)
    decreases n
  {
    match n
    case Leaf(_) => true
    case Folder(es) =>
      && Distinct(Keys(es))
      && forall i :: 0 <= i < |es| ==> WellFormed(es[i].1)
  }

  // ---------------------------------------------------------------------------
  // get

  /** One `_get` per component: a missing key is a `KeyError`, indexing stored
      bytes a `TypeError`. */
  function GetAt(n: Node, cs: seq<Text>): (r: Result<Node>)
    ensures r.Err? ==> r.error == KeyNotFound || r.error == NotAFolder
    decreases |cs|
  {
    if |cs| == 0 then Ok(n)
    else match n
      case Leaf(_) => Err(NotAFolder)
      case Folder(es) =>
        match Lookup(es, cs[0])
        case None => Err(KeyNotFound)
        case Some(child) => GetAt(child, cs[1..])
  }

  /** `JsonDatabase.get(path)` on the document `doc`. */
  function Get(doc: Node, path: Text): (r: Result<Node>)
    ensures Components(path) == [] ==> r == Ok(doc)
  {
    GetAt(doc, Components(path))
  }

  /** `is_folder(path)`: the path names a map. */
  predicate IsFolder(doc: Node, path: Text) {
    Get(doc, path).Ok? && Get(doc, path).value.Folder?
  }

  /** Looking up `a + b` is looking up `a`, then `b` below it. */
  lemma {:induction false} GetAtConcat(n: Node, a: seq<Text>, b: seq<Text>)
    ensures GetAt(n, a + b) == match GetAt(n, a) case Err(e) => Err(e) case Ok(m) => GetAt(m, b)
    decreases |a|
  {
    if |a| > 0 {
      assert (a + b)[0] == a[0];
      assert (a + b)[1..] == a[1..] + b;
      match n
      case Leaf(_) =>
      case Folder(es) =>
        match Lookup(es, a[0])
        case None =>
        case Some(child) => GetAtConcat(child, a[1..], b);
    } else {
      assert a + b == b;
    }
  }

  /** Component `i` is the first one missing: the prefix before it names a map
      without that key. */
  predicate MissingAt(n: Node, cs: seq<Text>, i: nat)
    requires i < |cs|
  {
    GetAt(n, cs[..i]).Ok? && GetAt(n, cs[..i]).value.Folder?
    && cs[i] !in Keys(GetAt(n, cs[..i]).value.entries)
  }

  /** `get` raises `KeyError` exactly when some component is missing from the map
      its prefix names. */
  lemma {:induction false} GetMissing(n: Node, cs: seq<Text>)
    ensures GetAt(n, cs) == Err(KeyNotFound) <==> exists i :: 0 <= i < |cs| && MissingAt(n, cs, i)
    decreases |cs|
  {
    if |cs| > 0 {
      assert cs[..0] == [];
      match n
      case Leaf(_) =>
        forall i | 0 <= i < |cs|
          ensures !MissingAt(n, cs, i)
        {
          if i > 0 {
            GetAtConcat(n, [cs[0]], cs[1..i]);
            assert [cs[0]] + cs[1..i] == cs[..i];
          }
        }
      case Folder(es) =>
        match Lookup(es, cs[0])
        case None =>
          assert MissingAt(n, cs, 0);
        case Some(child) =>
          GetMissing(child, cs[1..]);
          assert !MissingAt(n, cs, 0);
          forall i | 0 < i < |cs|
            ensures MissingAt(n, cs, i) <==> MissingAt(child, cs[1..], i - 1)
          {
            GetAtConcat(n, [cs[0]], cs[1..i]);
            assert [cs[0]] + cs[1..i] == cs[..i];
            assert cs[1..][..i - 1] == cs[1..i];
          }
          if exists i :: 0 <= i < |cs| && MissingAt(n, cs, i) {
            var i :| 0 <= i < |cs| && MissingAt(n, cs, i);
            assert MissingAt(child, cs[1..], i - 1);
          }
          if exists j :: 0 <= j < |cs| - 1 && MissingAt(child, cs[1..], j) {
            var j :| 0 <= j < |cs| - 1 && MissingAt(child, cs[1..], j);
            assert MissingAt(n, cs, j + 1);
          }
    }
  }

  /** "/" names the whole document, and a leading "/" changes nothing. */
  lemma {:induction false} LeadingSlash(doc: Node, path: Text)
    ensures Get(doc, [SLASH]) == Ok(doc)
    ensures Get(doc, [SLASH] + path) == Get(doc, path)
  {
    ComponentsAroundSlash([], []);
    ComponentsAroundSlash([], path);
    NoComponents();
    assert [] + [SLASH] + [] == [SLASH];
    assert [] + [SLASH] + path == [SLASH] + path;
  }

  // ---------------------------------------------------------------------------
  // set

  /** The value `set` stores: `{}` for `None`. */
  function Stored(value: Option<Node>): Node {
    match value
    case None => Folder([])
    case Some(v) => v
  }

  function Parent(cs: seq<Text>): seq<Text>
    requires |cs| > 0
  {
    cs[..|cs| - 1]
  }

  /** The walk to the parent map, then the assignment of the last component; with
      `overwrite` false an existing key is left alone. */
  function SetAt(n: Node, cs: seq<Text>, v: Node, overwrite: bool): (r: Result<Node>)
    requires |cs| > 0
    ensures r.Err? ==> r.error == KeyNotFound || r.error == NotAFolder
    ensures r.Ok? ==> r.value.Folder?
    decreases |cs|
  {
    match n
    case Leaf(_) => Err(NotAFolder)
    case Folder(es) =>
      if |cs| == 1 then
        if !overwrite && cs[0] in Keys(es) then Ok(n) else Ok(Folder(Put(es, cs[0], v)))
      else
        match Lookup(es, cs[0])
        case None => Err(KeyNotFound)
        case Some(child) =>
          var updated :- SetAt(child, cs[1..], v, overwrite);
          Ok(Folder(Put(es, cs[0], updated)))
  }

  /** `JsonDatabase.set(path, value, overwrite)`, giving the document as saved.
      A path without components fails at `path[-1]`. */
  function Set(doc: Node, path: Text, value: Option<Node>, overwrite: bool): (r: Result<Node>)
    ensures Components(path) == [] ==> r == Err(EmptyPath)
    ensures r.Err? ==> r.error == EmptyPath || r.error == KeyNotFound || r.error == NotAFolder
  {
    var cs := Components(path);
    if |cs| == 0 then Err(EmptyPath) else SetAt(doc, cs, Stored(value), overwrite)
  }

  /** `set` never creates parents: it succeeds exactly when the path's parent
      names a map, and otherwise fails as `get` of the parent does. */
  lemma {:induction false} SetNeedsParent(n: Node, cs: seq<Text>, v: Node, overwrite: bool)
    requires |cs| > 0
    ensures SetAt(n, cs, v, overwrite).Ok? <==> GetAt(n, Parent(cs)).Ok? && GetAt(n, Parent(cs)).value.Folder?
    ensures GetAt(n, Parent(cs)).Err? ==> SetAt(n, cs, v, overwrite) == Err(GetAt(n, Parent(cs)).error)
    decreases |cs|
  {
    if |cs| == 1 {
      assert Parent(cs) == [];
    } else {
      assert Parent(cs)[0] == cs[0];
      assert Parent(cs)[1..] == Parent(cs[1..]);
      match n
      case Leaf(_) =>
      case Folder(es) =>
        match Lookup(es, cs[0])
        case None =>
        case Some(child) => SetNeedsParent(child, cs[1..], v, overwrite);
    }
  }

  /** With `overwrite` false, setting a path that already exists changes
      nothing. */
  lemma {:induction false} SetKeepsExisting(n: Node, cs: seq<Text>, v: Node)
    requires |cs| > 0 && GetAt(n, cs).Ok?
    ensures SetAt(n, cs, v, false) == Ok(n)
    decreases |cs|
  {
    match n
    case Folder(es) =>
      if |cs| > 1 {
        var child := Lookup(es, cs[0]).value;
        SetKeepsExisting(child, cs[1..], v);
      }
  }

  /** After a successful `set`, `get` of the same path gives the stored value,
      unless `overwrite` was false and the path already existed. */
  lemma {:induction false} GetAfterSet(n: Node, cs: seq<Text>, v: Node, overwrite: bool)
    requires |cs| > 0 && SetAt(n, cs, v, overwrite).Ok?
    ensures GetAt(SetAt(n, cs, v, overwrite).value, cs) ==
              if !overwrite && GetAt(n, cs).Ok? then GetAt(n, cs) else Ok(v)
    decreases |cs|
  {
    match n
    case Folder(es) =>
      if |cs| > 1 {
        var child := Lookup(es, cs[0]).value;
        GetAfterSet(child, cs[1..], v, overwrite);
      }
  }

  /** Two paths part when some component position holds different names in
      each: neither lies under the other. */
  predicate Apart(a: seq<Text>, b: seq<Text>) {
    exists i :: 0 <= i < |a| && i < |b| && a[i] != b[i]
  }

  /** A `set` leaves every path apart from its own as it was. */
  lemma {:induction false} SetFrame(n: Node, cs: seq<Text>, v: Node, overwrite: bool, q: seq<Text>)
    requires |cs| > 0 && SetAt(n, cs, v, overwrite).Ok? && Apart(q, cs)
    ensures GetAt(SetAt(n, cs, v, overwrite).value, q) == GetAt(n, q)
    decreases |cs|
  {
    var i :| 0 <= i < |q| && i < |cs| && q[i] != cs[i];
    match n
    case Folder(es) =>
      var n' := SetAt(n, cs, v, overwrite).value;
      if n' != n && q[0] == cs[0] {
        assert |cs| > 1;
        var child := Lookup(es, cs[0]).value;
        assert q[1..][i - 1] != cs[1..][i - 1];
        SetFrame(child, cs[1..], v, overwrite, q[1..]);
      }
  }

  /** Below the path just set, `get` reads inside the stored value. */
  lemma {:induction false} GetBelowSet(n: Node, cs: seq<Text>, v: Node, overwrite: bool, rest: seq<Text>)
    requires |cs| > 0 && SetAt(n, cs, v, overwrite).Ok?
    requires overwrite || GetAt(n, cs).Err?
    ensures GetAt(SetAt(n, cs, v, overwrite).value, cs + rest) == GetAt(v, rest)
  {
    GetAfterSet(n, cs, v, overwrite);
    GetAtConcat(SetAt(n, cs, v, overwrite).value, cs, rest);
  }

  // ---------------------------------------------------------------------------
  // A folder, then an entry in it

  /** `set(dir, None)` then `set(dir/k, v)`, both without overwriting, into a
      store where `dir`'s parent is a folder, `dir` is absent or a folder, and
      `dir/k` is absent: both steps succeed and `dir/k` then holds `v`. */
  lemma {:induction false} StoreInFolder(n: Node, dir: seq<Text>, k: Text, v: Node)
    requires |dir| > 0
    requires GetAt(n, Parent(dir)).Ok? && GetAt(n, Parent(dir)).value.Folder?
    requires GetAt(n, dir).Ok? ==> GetAt(n, dir).value.Folder?
    requires GetAt(n, dir + [k]).Err?
    ensures SetAt(n, dir, Folder([]), false).Ok?
    ensures var n1 := SetAt(n, dir, Folder([]), false).value;
            SetAt(n1, dir + [k], v, false).Ok? && GetAt(SetAt(n1, dir + [k], v, false).value, dir + [k]) == Ok(v)
  {
    SetNeedsParent(n, dir, Folder([]), false);
    var n1 := SetAt(n, dir, Folder([]), false).value;
    GetAfterSet(n, dir, Folder([]), false);
    if GetAt(n, dir).Ok? {
      SetKeepsExisting(n, dir, Folder([]));
    }
    GetAtConcat(n, dir, [k]);
    GetAtConcat(n1, dir, [k]);
    assert Parent(dir + [k]) == dir;
    SetNeedsParent(n1, dir + [k], v, false);
    GetAfterSet(n1, dir + [k], v, false);
  }

  /** Both steps leave every path apart from `dir` as it was. */
  lemma {:induction false} StoreInFolderFrame(n: Node, dir: seq<Text>, k: Text, v: Node, q: seq<Text>)
    requires |dir| > 0 && SetAt(n, dir, Folder([]), false).Ok?
    requires SetAt(SetAt(n, dir, Folder([]), false).value, dir + [k], v, false).Ok?
    requires Apart(q, dir)
    ensures GetAt(SetAt(SetAt(n, dir, Folder([]), false).value, dir + [k], v, false).value, q) == GetAt(n, q)
  {
    var n1 := SetAt(n, dir, Folder([]), false).value;
    var i :| 0 <= i < |q| && i < |dir| && q[i] != dir[i];
    assert q[i] != (dir + [k])[i];
    SetFrame(n, dir, Folder([]), false, q);
    SetFrame(n1, dir + [k], v, false, q);
  }

  /** When `dir/k` already exists, both steps change nothing. */
  lemma {:induction false} StoreInFolderAgain(n: Node, dir: seq<Text>, k: Text, v: Node)
    requires |dir| > 0 && GetAt(n, dir + [k]).Ok?
    ensures SetAt(n, dir, Folder([]), false) == Ok(n)
    ensures SetAt(n, dir + [k], v, false) == Ok(n)
  {
    GetAtConcat(n, dir, [k]);
    SetKeepsExisting(n, dir, Folder([]));
    SetKeepsExisting(n, dir + [k], v);
  }

  /** `set` keeps every map's keys distinct. */
  lemma {:induction false} SetWellFormed(n: Node, cs: seq<Text>, v: Node, overwrite: bool)
    requires |cs| > 0 && SetAt(n, cs, v, overwrite).Ok?
    requires WellFormed(n) && WellFormed(v)
    ensures WellFormed(SetAt(n, cs, v, overwrite).value)
    decreases |cs|
  {
    match n
    case Folder(es) =>
      var n' := SetAt(n, cs, v, overwrite).value;
      if n' != n {
        var child' := if |cs| == 1 then v else SetAt(Lookup(es, cs[0]).value, cs[1..], v, overwrite).value;
        if |cs| > 1 {
          var child := Lookup(es, cs[0]).value;
          LookupIn(es, cs[0]);
          SetWellFormed(child, cs[1..], v, overwrite);
        }
        PutWellFormed(es, cs[0], child');
      }
  }

  /** A value found by `Lookup` is one of the map's values. */
  lemma {:induction false} LookupIn<V>(es: seq<(Text, V)>, key: Text)
    requires Lookup(es, key).Some?
    ensures (key, Lookup(es, key).value) in es
    decreases |es|
  {
    if es[0].0 != key {
      LookupIn(es[1..], key);
    }
  }

  lemma {:induction false} PutWellFormed(es: seq<(Text, Node)>, key: Text, v: Node)
    requires WellFormed(Folder(es)) && WellFormed(v)
    ensures WellFormed(Folder(Put(es, key, v)))
  {
    var r := Put(es, key, v);
    PutEntries(es, key, v);
    if key !in Keys(es) {
      DistinctAppend(Keys(es), key);
    }
    forall i | 0 <= i < |r|
      ensures WellFormed(r[i].1)
    {
      if r[i] != (key, v) {
        var j :| 0 <= j < |es| && es[j] == r[i];
      }
    }
  }

  lemma DistinctAppend(ks: seq<Text>, k: Text)
    requires Distinct(ks) && k !in ks
    ensures Distinct(ks + [k])
  {
  }
}
