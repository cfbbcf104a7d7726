/** The string operations the source relies on, over UTF-8 bytes: `find`, `split`,
    `join`, `strip`, `startswith`, `os.path.join`, and the path-component split of the
    JSON store. */
module Strings {
  import opened Wrappers
  import opened Bytes

  const SP: byte := 0x20
  const NL: byte := 0x0A
  const NUL: byte := 0x00
  const SLASH: byte := 0x2F

  /** `s.find(c, from)`; None stands for Python's -1. */
  function Find(s: Bytes, c: byte, from: nat): (r: Option<nat>)
    ensures r.Some? ==> from <= r.value < |s| && s[r.value] == c
    decreases |s| - from
  {
    if from >= |s| then None
    else if s[from] == c then Some(from)
    else Find(s, c, from + 1)
  }

  /** `Find` reports the first `c` at or after `from`, and None only when there is none. */
  lemma {:induction false} FindFirst(s: Bytes, c: byte, from: nat)
    ensures Find(s, c, from).Some? ==> forall j :: from <= j < Find(s, c, from).value ==> s[j] != c
    ensures Find(s, c, from).None? ==> forall j :: from <= j < |s| ==> s[j] != c
    decreases |s| - from
  {
    if from < |s| && s[from] != c {
      FindFirst(s, c, from + 1);
    }
  }

  /** The first `c` at or after `from` is the one `Find` reports. */
  lemma {:induction false} FindAt(s: Bytes, c: byte, from: nat, at: nat)
    requires from <= at < |s| && s[at] == c
    requires forall j :: from <= j < at ==> s[j] != c
    ensures Find(s, c, from) == Some(at)
    decreases at - from
  {
    if from < at {
      FindAt(s, c, from + 1, at);
    }
  }

  /** Without a `c` at or after `from`, `Find` reports None. */
  lemma {:induction false} FindNone(s: Bytes, c: byte, from: nat)
    requires forall j :: from <= j < |s| ==> s[j] != c
    ensures Find(s, c, from) == None
    decreases |s| - from
  {
    if from < |s| {
      FindNone(s, c, from + 1);
    }
  }

  predicate StartsWith(s: Bytes, prefix: Bytes) {
    |prefix| <= |s| && s[..|prefix|] == prefix
  }

  predicate EndsWith(s: Bytes, suffix: Bytes) {
    |suffix| <= |s| && s[|s| - |suffix|..] == suffix
  }

  lemma {:induction false} EndsWithConcat(s: Bytes, suffix: Bytes)
    ensures EndsWith(s + suffix, suffix)
  {
    assert (s + suffix)[|s|..] == suffix;
  }

  // ---------------------------------------------------------------------------
  // split and join

  /** `s.split(sep)` for a one-byte separator. */
  function Split(s: Bytes, sep: byte): (r: seq<Bytes>)
    ensures |r| >= 1
    ensures forall i :: 0 <= i < |r| ==> sep !in r[i]
    decreases |s|
  {
    FindFirst(s, sep, 0);
    match Find(s, sep, 0)
    case None => [s]
    case Some(i) => [s[..i]] + Split(s[i + 1..], sep)
  }

  /** `sep.join(parts)`. */
  function Join(parts: seq<Bytes>, sep: Bytes): Bytes {
    if |parts| == 0 then []
    else if |parts| == 1 then parts[0]
    else parts[0] + sep + Join(parts[1..], sep)
  }

  lemma {:induction false} JoinAppend(parts: seq<Bytes>, last: Bytes, sep: Bytes)
    requires |parts| >= 1
    ensures Join(parts + [last], sep) == Join(parts, sep) + sep + last
    decreases |parts|
  {
    if |parts| > 1 {
      JoinAppend(parts[1..], last, sep);
      assert (parts + [last])[1..] == parts[1..] + [last];
    }
  }

  lemma {:induction false} JoinConcat(a: seq<Bytes>, b: seq<Bytes>, sep: Bytes)
    requires |a| >= 1 && |b| >= 1
    ensures Join(a + b, sep) == Join(a, sep) + sep + Join(b, sep)
    decreases |a|
  {
    if |a| == 1 {
      assert a + b == [a[0]] + b;
      assert (a + b)[1..] == b;
    } else {
      JoinConcat(a[1..], b, sep);
      assert (a + b)[1..] == a[1..] + b;
    }
  }

  /** Joining the pieces of a split restores the string. */
  lemma {:induction false} JoinSplit(s: Bytes, sep: byte)
    ensures Join(Split(s, sep), [sep]) == s
    decreases |s|
  {
    match Find(s, sep, 0)
    case None =>
    case Some(i) =>
      var rest := Split(s[i + 1..], sep);
      JoinSplit(s[i + 1..], sep);
      assert Split(s, sep) == [s[..i]] + rest;
      assert ([s[..i]] + rest)[1..] == rest;
      assert Join([s[..i]] + rest, [sep]) == s[..i] + [sep] + Join(rest, [sep]);
      assert s == s[..i] + [sep] + s[i + 1..];
  }

  /** Splitting a join of separator-free pieces gives the pieces back. */
  lemma {:induction false} SplitJoin(parts: seq<Bytes>, sep: byte)
    requires |parts| >= 1
    requires forall i :: 0 <= i < |parts| ==> sep !in parts[i]
    ensures Split(Join(parts, [sep]), sep) == parts
    decreases |parts|
  {
    if |parts| == 1 {
      assert Find(parts[0], sep, 0) == None;
    } else {
      assert Join(parts, [sep]) == parts[0] + [sep] + Join(parts[1..], [sep]);
      SplitCons(parts[0], Join(parts[1..], [sep]), sep);
      SplitJoin(parts[1..], sep);
    }
  }

  /** A separator-free first piece and a separator split off first. */
  lemma {:induction false} SplitCons(a: Bytes, b: Bytes, sep: byte)
    requires sep !in a
    ensures Split(a + [sep] + b, sep) == [a] + Split(b, sep)
  {
    var s := a + [sep] + b;
    assert forall j :: 0 <= j < |a| ==> s[j] == a[j];
    FindAt(s, sep, 0, |a|);
    assert s[..|a|] == a;
    assert s[|a| + 1..] == b;
  }

  /** `s.split(" ", 1)`: None when there is no space (a one-element list in Python). */
  function SplitOnce(s: Bytes, sep: byte): (r: Option<(Bytes, Bytes)>)
    ensures r.None? <==> sep !in s
    ensures r.Some? ==> sep !in r.value.0 && s == r.value.0 + [sep] + r.value.1
  {
    FindFirst(s, sep, 0);
    match Find(s, sep, 0)
    case None => None
    case Some(i) =>
      assert s == s[..i] + [sep] + s[i + 1..];
      Some((s[..i], s[i + 1..]))
  }

  // ---------------------------------------------------------------------------
  // strip

  /** `bytes.strip()` removes b' \t\n\r\x0b\x0c'; `str.strip()` also removes the
      separators \x1c-\x1f (its non-ASCII whitespace is not modelled). */
  datatype Whitespace = BytesWhitespace | StrWhitespace

  predicate IsSpace(c: byte, ws: Whitespace) {
    c == 0x20 || 0x09 <= c <= 0x0D || (ws == StrWhitespace && 0x1C <= c <= 0x1F)
  }

  function TrimLeft(s: Bytes, ws: Whitespace): (r: Bytes)
    ensures |r| <= |s| && r == s[|s| - |r|..]
    ensures forall i :: 0 <= i < |s| - |r| ==> IsSpace(s[i], ws)
    ensures |r| > 0 ==> !IsSpace(r[0], ws)
    decreases |s|
  {
    if |s| > 0 && IsSpace(s[0], ws) then TrimLeft(s[1..], ws) else s
  }

  function TrimRight(s: Bytes, ws: Whitespace): (r: Bytes)
    ensures |r| <= |s| && r == s[..|r|]
    ensures forall i :: |r| <= i < |s| ==> IsSpace(s[i], ws)
    ensures |r| > 0 ==> !IsSpace(r[|r| - 1], ws)
    decreases |s|
  {
    if |s| > 0 && IsSpace(s[|s| - 1], ws) then TrimRight(s[..|s| - 1], ws) else s
  }

  /** `s.strip()`: whitespace removed from both ends, and nothing else. */
  function Strip(s: Bytes, ws: Whitespace): (r: Bytes)
    ensures |r| <= |s|
    ensures |r| > 0 ==> !IsSpace(r[0], ws) && !IsSpace(r[|r| - 1], ws)
    ensures (|s| > 0 ==> !IsSpace(s[0], ws) && !IsSpace(s[|s| - 1], ws)) ==> r == s
    ensures (forall i :: 0 <= i < |s| ==> IsSpace(s[i], ws)) ==> r == []
  {
    TrimRight(TrimLeft(s, ws), ws)
  }

  /** What `strip` takes away is whitespace at the two ends and nothing else:
      the result is a slice of the input with only whitespace around it. */
  lemma StripTrims(s: Bytes, ws: Whitespace)
    ensures IsTrimmed(s, Strip(s, ws), ws)
  {
    TrimBothEnds(s, TrimLeft(s, ws), TrimRight(TrimLeft(s, ws), ws), ws);
  }

  /** `r` is `s` less some whitespace at each end. */
  ghost predicate IsTrimmed(s: Bytes, r: Bytes, ws: Whitespace) {
    exists i, j :: TrimmedAt(s, r, ws, i, j)
  }

  /** `r` is `s[i..j]`, and everything outside `i..j` is whitespace. */
  ghost predicate TrimmedAt(s: Bytes, r: Bytes, ws: Whitespace, i: int, j: int) {
    0 <= i <= j <= |s| && r == s[i..j]
    && (forall k :: 0 <= k < i ==> IsSpace(s[k], ws))
    && (forall k :: j <= k < |s| ==> IsSpace(s[k], ws))
  }

  /**
   * Cutting leading whitespace off `s` to get `b`, then trailing whitespace
   * off `b` to get `r`, leaves `r` a slice of `s` with whitespace around it.
   */
  lemma TrimBothEnds(s: Bytes, b: Bytes, r: Bytes, ws: Whitespace)
    requires |b| <= |s| && b == s[|s| - |b|..]
    requires forall k :: 0 <= k < |s| - |b| ==> IsSpace(s[k], ws)
    requires |r| <= |b| && r == b[..|r|]
    requires forall k :: |r| <= k < |b| ==> IsSpace(b[k], ws)
    ensures TrimmedAt(s, r, ws, |s| - |b|, |s| - |b| + |r|)
  {
    var i := |s| - |b|;
    PrefixOfSuffix(s, i, b, r);
    forall k | i + |r| <= k < |s| ensures IsSpace(s[k], ws) {
      assert s[k] == b[k - i];
    }
  }

  /** A prefix of the suffix of `s` from `i` is the slice of `s` from `i`. */
  lemma PrefixOfSuffix(s: Bytes, i: int, b: Bytes, r: Bytes)
    requires 0 <= i <= |s| && b == s[i..] && |r| <= |b| && r == b[..|r|]
    ensures r == s[i..i + |r|]
  {
  }

  // ---------------------------------------------------------------------------
  // paths

  function NonEmpty(parts: seq<Bytes>): (r: seq<Bytes>)
    ensures forall i :: 0 <= i < |r| ==> |r[i]| > 0
    ensures forall i :: 0 <= i < |r| ==> r[i] in parts
  {
    if |parts| == 0 then []
    else if |parts[0]| == 0 then NonEmpty(parts[1..])
    else [parts[0]] + NonEmpty(parts[1..])
  }

  lemma {:induction false} NonEmptyConcat(a: seq<Bytes>, b: seq<Bytes>)
    ensures NonEmpty(a + b) == NonEmpty(a) + NonEmpty(b)
    decreases |a|
  {
    if |a| > 0 {
      NonEmptyConcat(a[1..], b);
      assert (a + b)[1..] == a[1..] + b;
    } else {
      assert a + b == b;
    }
  }

  lemma {:induction false} NonEmptyId(parts: seq<Bytes>)
    requires forall i :: 0 <= i < |parts| ==> |parts[i]| > 0
    ensures NonEmpty(parts) == parts
    decreases |parts|
  {
    if |parts| > 0 {
      NonEmptyId(parts[1..]);
    }
  }

  /** `[c for c in path.split("/") if c]`, as both `get` and `set` of the store
      cut a path. */
  function Components(path: Text): (r: seq<Text>)
    ensures forall i :: 0 <= i < |r| ==> |r[i]| > 0 && SLASH !in r[i]
  {
    NonEmpty(Split(path, SLASH))
  }

  /** The empty path has no components. */
  lemma NoComponents()
    ensures Components([]) == []
  {
    assert Split([], SLASH) == [[]];
    assert NonEmpty([[]]) == NonEmpty([]);
  }

  predicate IsComponent(c: Text) {
    |c| > 0 && SLASH !in c
  }

  predicate AllComponents(cs: seq<Text>) {
    forall i :: 0 <= i < |cs| ==> IsComponent(cs[i])
  }

  /** Joining non-empty, slash-free names with "/" and cutting the result again
      gives the names back. */
  lemma {:induction false} ComponentsOfJoin(cs: seq<Text>)
    requires |cs| >= 1 && AllComponents(cs)
    ensures Components(Join(cs, [SLASH])) == cs
  {
    SplitJoin(cs, SLASH);
    NonEmptyId(cs);
  }

  lemma {:induction false} SplitAroundSeparator(a: Bytes, b: Bytes, sep: byte)
    ensures Split(a + [sep] + b, sep) == Split(a, sep) + Split(b, sep)
  {
    var pa := Split(a, sep);
    var pb := Split(b, sep);
    JoinSplit(a, sep);
    JoinSplit(b, sep);
    JoinConcat(pa, pb, [sep]);
    SplitJoin(pa + pb, sep);
  }

  /** Components of `a + "/" + b` are those of `a` followed by those of `b`. */
  lemma {:induction false} ComponentsAroundSlash(a: Text, b: Text)
    ensures Components(a + [SLASH] + b) == Components(a) + Components(b)
  {
    SplitAroundSeparator(a, b, SLASH);
    NonEmptyConcat(Split(a, SLASH), Split(b, SLASH));
  }

  /** `os.path.join(a, b)` on POSIX: an absolute `b` replaces `a`; otherwise a "/"
      is inserted unless `a` is empty or already ends with one. */
  function PathJoin(a: Text, b: Text): (r: Text)
    ensures StartsWith(b, [SLASH]) ==> r == b
    ensures !StartsWith(b, [SLASH]) ==> EndsWith(r, b)
  {
    if StartsWith(b, [SLASH]) then b
    else if |a| == 0 || EndsWith(a, [SLASH]) then a + b
    else a + [SLASH] + b
  }

  /** Joining a relative path adds its components after those of the base. */
  lemma {:induction false} ComponentsOfPathJoin(a: Text, b: Text)
    requires !StartsWith(b, [SLASH])
    ensures Components(PathJoin(a, b)) == Components(a) + Components(b)
  {
    if |a| == 0 {
      assert Split(a, SLASH) == [[]];
      assert NonEmpty([[]]) == [];
      assert PathJoin(a, b) == b;
    } else if EndsWith(a, [SLASH]) {
      var a' := a[..|a| - 1];
      assert a == a' + [SLASH] + [];
      ComponentsAroundSlash(a', []);
      assert Split([], SLASH) == [[]];
      assert NonEmpty([[]]) == [];
      assert Components(a) == Components(a');
      assert a + b == (a' + [SLASH]) + b == a' + [SLASH] + b;
      ComponentsAroundSlash(a', b);
    } else {
      ComponentsAroundSlash(a, b);
    }
  }
}
