/** The key-value-list-with-message text format shared by commits and tags
    (`kvlm_read` / `kvlm_write`): header lines `key value`, continuation lines that
    start with a space, a blank line, then the message. */
module Kvlm {
  import opened Wrappers
  import opened Bytes
  import opened Strings

  /** A named value as the writer accepts it: a plain string, or a list of strings. */
  datatype Value = Str(s: Text) | List(items: seq<Text>)

  datatype Field = Field(key: Text, value: Value)

  /** The dictionary both functions work on: the named fields in insertion order,
      and the entry under the key `None`, which holds the message. */
  datatype Kvlm = Kvlm(fields: seq<Field>, message: Option<Text>)

  /** The list a value contributes to its header lines: a plain string is wrapped. */
  function Items(v: Value): seq<Text> {
    match v
    case Str(s) => [s]
    case List(xs) => xs
  }

  predicate UniqueKeys(fs: seq<Field>) {
    forall i, j :: 0 <= i < j < |fs| ==> fs[i].key != fs[j].key
  }

  predicate AllLists(fs: seq<Field>) {
    forall i :: 0 <= i < |fs| ==> fs[i].value.List?
  }

  function KeyIndex(fs: seq<Field>, key: Text): (r: Option<nat>)
    ensures r.Some? ==> r.value < |fs| && fs[r.value].key == key
    ensures r.Some? ==> forall j :: 0 <= j < r.value ==> fs[j].key != key
    ensures r.None? ==> forall j :: 0 <= j < |fs| ==> fs[j].key != key
  {
    if |fs| == 0 then None
    else if fs[0].key == key then Some(0)
    else match KeyIndex(fs[1..], key)
      case None => None
      case Some(i) => Some(i + 1)
  }

  /** `d.get(key, [])`. */
  function ValuesOf(fs: seq<Field>, key: Text): seq<Text> {
    match KeyIndex(fs, key)
    case None => []
    case Some(i) => Items(fs[i].value)
  }

  /** `d[key] = d.get(key, []) + [v]`: a new key goes last, an existing key keeps
      its place. */
  function Append(fs: seq<Field>, key: Text, v: Text): (r: seq<Field>)
    ensures AllLists(fs) ==> AllLists(r)
    ensures UniqueKeys(fs) ==> UniqueKeys(r)
    ensures ValuesOf(r, key) == ValuesOf(fs, key) + [v]
    ensures forall k :: k != key ==> ValuesOf(r, k) == ValuesOf(fs, k)
    ensures KeyIndex(fs, key).Some? ==> |r| == |fs|
    ensures KeyIndex(fs, key).Some? ==> forall j :: 0 <= j < |r| ==> r[j].key == fs[j].key
    ensures KeyIndex(fs, key).None? ==> r == fs + [Field(key, List([v]))]
  {
    match KeyIndex(fs, key)
    case None =>
      var r := fs + [Field(key, List([v]))];
      assert KeyIndex(r, key) == Some(|fs|) by {
        KeyIndexAppend(fs, Field(key, List([v])), key);
      }
      forall k | k != key
        ensures ValuesOf(r, k) == ValuesOf(fs, k)
      {
        KeyIndexAppend(fs, Field(key, List([v])), k);
      }
      r
    case Some(i) =>
      var r := fs[i := Field(key, List(Items(fs[i].value) + [v]))];
      assert KeyIndex(r, key) == Some(i) by {
        KeyIndexUpdate(fs, i, List(Items(fs[i].value) + [v]), key);
      }
      forall k | k != key
        ensures ValuesOf(r, k) == ValuesOf(fs, k)
      {
        KeyIndexUpdate(fs, i, List(Items(fs[i].value) + [v]), k);
      }
      r
  }

  lemma {:induction false} KeyIndexAppend(fs: seq<Field>, f: Field, k: Text)
    ensures KeyIndex(fs, k).Some? ==> KeyIndex(fs + [f], k) == KeyIndex(fs, k)
    ensures KeyIndex(fs, k).None? && f.key == k ==> KeyIndex(fs + [f], k) == Some(|fs|)
    ensures KeyIndex(fs, k).None? && f.key != k ==> KeyIndex(fs + [f], k) == None
    decreases |fs|
  {
    if |fs| > 0 {
      KeyIndexAppend(fs[1..], f, k);
      assert (fs + [f])[1..] == fs[1..] + [f];
    }
  }

  lemma {:induction false} KeyIndexUpdate(fs: seq<Field>, i: nat, v: Value, k: Text)
    requires i < |fs|
    ensures KeyIndex(fs[i := Field(fs[i].key, v)], k) == KeyIndex(fs, k)
    decreases |fs|
  {
    if |fs| > 0 && i > 0 {
      KeyIndexUpdate(fs[1..], i - 1, v, k);
      assert fs[i := Field(fs[i].key, v)][1..] == fs[1..][i - 1 := Field(fs[i].key, v)];
    }
  }

  /** With unique keys, each field is found at its own position. */
  lemma {:induction false} KeyIndexUnique(fs: seq<Field>, i: nat)
    requires UniqueKeys(fs) && i < |fs|
    ensures KeyIndex(fs, fs[i].key) == Some(i)
    decreases i
  {
    if i > 0 {
      KeyIndexUnique(fs[1..], i - 1);
    }
  }

  /** A key that is unique once appended is absent before. */
  lemma {:induction false} KeyAbsent(fs: seq<Field>, f: Field)
    requires UniqueKeys(fs + [f])
    ensures KeyIndex(fs, f.key).None?
  {
    forall j | 0 <= j < |fs|
      ensures fs[j].key != f.key
    {
      assert (fs + [f])[j].key != (fs + [f])[|fs|].key;
    }
  }

  lemma {:induction false} ConsConcat<T>(a: seq<T>, b: seq<T>)
    requires |b| > 0
    ensures a + [b[0]] + b[1..] == a + b
  {
  }

  // ---------------------------------------------------------------------------
  // kvlm_read

  /** The header block ends at the first empty line at or after `i`; running off
      the end of the line list is Python's IndexError. */
  function HeaderEnd(lines: seq<Text>, i: nat): (r: Result<nat>)
    ensures r.Ok? ==> i <= r.value < |lines| && lines[r.value] == []
    ensures r.Ok? ==> forall j :: i <= j < r.value ==> lines[j] != []
    ensures r.Err? ==> r.error == IndexOutOfRange
    decreases |lines| - i
  {
    if i >= |lines| then Err(IndexOutOfRange)
    else if lines[i] == [] then Ok(i)
    else HeaderEnd(lines, i + 1)
  }

  /** The message is the first non-empty line at or after `i`. */
  function MessageLine(lines: seq<Text>, i: nat): (r: Result<nat>)
    ensures r.Ok? ==> i <= r.value < |lines| && lines[r.value] != []
    ensures r.Ok? ==> forall j :: i <= j < r.value ==> lines[j] == []
    ensures r.Err? ==> r.error == IndexOutOfRange
    decreases |lines| - i
  {
    if i >= |lines| then Err(IndexOutOfRange)
    else if lines[i] != [] then Ok(i)
    else MessageLine(lines, i + 1)
  }

  /** The header block is missing exactly when no line from `i` on is empty. */
  lemma {:induction false} HeaderEndMissing(lines: seq<Text>, i: nat)
    ensures HeaderEnd(lines, i).Err? <==> forall j :: i <= j < |lines| ==> lines[j] != []
    decreases |lines| - i
  {
    if i < |lines| && lines[i] != [] {
      HeaderEndMissing(lines, i + 1);
    }
  }

  /** The message is missing exactly when every line from `i` on is empty. */
  lemma {:induction false} MessageLineMissing(lines: seq<Text>, i: nat)
    ensures MessageLine(lines, i).Err? <==> forall j :: i <= j < |lines| ==> lines[j] == []
    decreases |lines| - i
  {
    if i < |lines| && lines[i] == [] {
      MessageLineMissing(lines, i + 1);
    }
  }

  /** Adds the header lines to `fs` in order. A line is split at its first space; a
      non-empty key becomes the current key, an empty one (a line that starts with a
      space) continues it. A line without a space is the "Parsing error". */
  function ParseHeaders(lines: seq<Text>, fs: seq<Field>, current: Text): (r: Result<seq<Field>>)
    ensures r.Ok? && AllLists(fs) ==> AllLists(r.value)
    ensures r.Ok? && UniqueKeys(fs) ==> UniqueKeys(r.value)
    ensures r.Err? ==> r.error == ParsingError
    decreases |lines|
  {
    if |lines| == 0 then Ok(fs)
    else match SplitOnce(lines[0], SP)
      case None => Err(ParsingError)
      case Some((key, value)) =>
        var k := if |key| > 0 then key else current;
        ParseHeaders(lines[1..], Append(fs, k, value), k)
  }

  /** The header block ends at the first empty line. */
  lemma {:induction false} HeaderEndAt(lines: seq<Text>, i: nat, n: nat)
    requires i <= n < |lines| && lines[n] == []
    requires forall j :: i <= j < n ==> lines[j] != []
    ensures HeaderEnd(lines, i) == Ok(n)
    decreases n - i
  {
    if i < n {
      HeaderEndAt(lines, i + 1, n);
    }
  }

  /** One step of the header parser. */
  lemma {:induction false} ParseStep(lines: seq<Text>, fs: seq<Field>, current: Text, key: Text, value: Text)
    requires |lines| > 0
    requires lines[0] == key + [SP] + value && SP !in key
    ensures var k := if |key| > 0 then key else current;
            ParseHeaders(lines, fs, current) == ParseHeaders(lines[1..], Append(fs, k, value), k)
  {
    var line := lines[0];
    assert forall j :: 0 <= j < |key| ==> line[j] == key[j];
    FindAt(line, SP, 0, |key|);
    assert line[..|key|] == key && line[|key| + 1..] == value;
  }

  /** The parser fails exactly when some header line has no space. */
  lemma {:induction false} ParseHeadersFails(lines: seq<Text>, fs: seq<Field>, current: Text)
    ensures ParseHeaders(lines, fs, current).Err? <==> exists i :: 0 <= i < |lines| && SP !in lines[i]
    decreases |lines|
  {
    if |lines| > 0 {
      match SplitOnce(lines[0], SP)
      case None =>
      case Some((key, value)) =>
        var k := if |key| > 0 then key else current;
        ParseHeadersFails(lines[1..], Append(fs, k, value), k);
        assert forall i :: 1 <= i < |lines| ==> lines[i] == lines[1..][i - 1];
        if exists i :: 0 <= i < |lines| && SP !in lines[i] {
          var i :| 0 <= i < |lines| && SP !in lines[i];
          assert i > 0 && SP !in lines[1..][i - 1];
        }
    }
  }

  function DropBlankFirst(lines: seq<Text>): (r: seq<Text>)
    ensures forall x :: x in r ==> x in lines
  {
    if |lines| > 0 && lines[0] == [] then lines[1..] else lines
  }

  function DropBlankLast(lines: seq<Text>): (r: seq<Text>)
    ensures forall x :: x in r ==> x in lines
  {
    if |lines| > 0 && lines[|lines| - 1] == [] then lines[..|lines| - 1] else lines
  }

  /** The leading and the trailing empty line that `kvlm_read` drops after
      splitting; the list is never empty here, since the input is not. */
  function TrimBlankEnds(lines: seq<Text>): (r: seq<Text>)
    ensures forall x :: x in r ==> x in lines
  {
    DropBlankLast(DropBlankFirst(lines))
  }

  /** The header lines up to the first empty line, then the first non-empty line
      after it as the message; what follows the message is ignored. */
  function ReadLines(lines: seq<Text>): (r: Result<Kvlm>)
    ensures r.Ok? ==> r.value.message.Some? && r.value.message.value in lines
    ensures r.Ok? ==> |r.value.message.value| > 0
    ensures r.Ok? ==> ParsedFrom(lines, r.value)
    ensures r.Ok? ==> UniqueKeys(r.value.fields) && AllLists(r.value.fields)
    ensures (forall j :: 0 <= j < |lines| ==> lines[j] != []) ==> r == Err(IndexOutOfRange)
    ensures r.Err? ==> r.error == IndexOutOfRange || r.error == ParsingError
  {
    HeaderEndMissing(lines, 0);
    var n :- HeaderEnd(lines, 0);
    var fields :- ParseHeaders(lines[..n], [], []);
    var m :- MessageLine(lines, n);
    assert LaidOut(lines, n, m);
    Ok(Kvlm(fields, Some(lines[m])))
  }

  /** `kv` holds the headers above the first empty line of `lines` and, as its
      message, the first non-empty line after that. */
  ghost predicate ParsedFrom(lines: seq<Text>, kv: Kvlm) {
    exists n, m :: LaidOut(lines, n, m) && kv.message == Some(lines[m])
                   && ParseHeaders(lines[..n], [], []) == Ok(kv.fields)
  }

  /** Line `n` is the first empty line, and line `m` the first non-empty line
      after it. */
  ghost predicate LaidOut(lines: seq<Text>, n: int, m: int) {
    0 <= n < m < |lines| && lines[n] == [] && lines[m] != []
    && (forall j :: 0 <= j < n ==> lines[j] != [])
    && (forall j :: n <= j < m ==> lines[j] == [])
  }

  /** `kvlm_read`. */
  function Read(data: Text): (r: Result<Kvlm>)
    ensures |data| == 0 ==> r == Ok(Kvlm([], None))
    ensures r.Ok? && |data| > 0 ==> r.value.message.Some?
    ensures r.Ok? && r.value.message.Some? ==>
              |r.value.message.value| > 0 && NL !in r.value.message.value
    ensures r.Ok? && |data| > 0 ==> ParsedFrom(TrimBlankEnds(Split(data, NL)), r.value)
    ensures r.Ok? ==> UniqueKeys(r.value.fields) && AllLists(r.value.fields)
    ensures r.Err? ==> r.error == IndexOutOfRange || r.error == ParsingError
  {
    if |data| == 0 then Ok(Kvlm([], None))
    else
      var lines := Split(data, NL);
      var r := ReadLines(TrimBlankEnds(lines));
      assert r.Ok? ==> r.value.message.value in lines;
      r
  }

  // ---------------------------------------------------------------------------
  // kvlm_write

  /** One field as the writer prints it: `key`, a space, the values joined by "\n ". */
  function HeaderLine(f: Field): Text {
    f.key + [SP] + Join(Items(f.value), [NL, SP])
  }

  function HeaderLines(fs: seq<Field>): (r: seq<Text>)
    ensures |r| == |fs|
  {
    if |fs| == 0 then [] else [HeaderLine(fs[0])] + HeaderLines(fs[1..])
  }

  /** `kvlm_write`: the header lines joined by "\n", a blank line, the stripped
      message; a missing `None` key is a KeyError. */
  function Write(kv: Kvlm): (r: Result<Text>)
    ensures r.Err? <==> kv.message.None?
    ensures r.Ok? ==> EndsWith(r.value, [NL, NL] + Strip(kv.message.value, StrWhitespace))
  {
    match kv.message
    case None => Err(KeyNotFound)
    case Some(msg) =>
      var tail := [NL, NL] + Strip(msg, StrWhitespace);
      EndsWithConcat(Join(HeaderLines(kv.fields), [NL]), tail);
      Ok(Join(HeaderLines(kv.fields), [NL]) + tail)
  }

  // ---------------------------------------------------------------------------
  // Round trip

  /** A field the reader gives back unchanged: a key without space or newline, and
      a non-empty list of newline-free values. */
  predicate WellFormedField(f: Field) {
    && |f.key| > 0 && SP !in f.key && NL !in f.key
    && f.value.List? && |f.value.items| > 0
    && (forall i :: 0 <= i < |f.value.items| ==> NL !in f.value.items[i])
  }

  /** The dictionaries that survive `kvlm_read(kvlm_write(d))`. */
  predicate WellFormed(kv: Kvlm) {
    && UniqueKeys(kv.fields)
    && (forall i :: 0 <= i < |kv.fields| ==> WellFormedField(kv.fields[i]))
    && kv.message.Some?
    && |kv.message.value| > 0 && NL !in kv.message.value
    && Strip(kv.message.value, StrWhitespace) == kv.message.value
  }

  /** The physical lines of continuation values: each starts with a space. */
  function Continuations(xs: seq<Text>): (r: seq<Text>)
    ensures |r| == |xs|
  {
    if |xs| == 0 then [] else [[SP] + xs[0]] + Continuations(xs[1..])
  }

  /** The physical lines one well-formed field occupies once written. */
  function FieldLines(f: Field): seq<Text>
    requires WellFormedField(f)
  {
    [f.key + [SP] + f.value.items[0]] + Continuations(f.value.items[1..])
  }

  function AllLines(fs: seq<Field>): seq<Text>
    requires forall i :: 0 <= i < |fs| ==> WellFormedField(fs[i])
  {
    if |fs| == 0 then [] else FieldLines(fs[0]) + AllLines(fs[1..])
  }

  lemma {:induction false} JoinContinuations(p: Text, items: seq<Text>)
    requires |items| > 0
    ensures Join([p + items[0]] + Continuations(items[1..]), [NL]) == p + Join(items, [NL, SP])
    decreases |items|
  {
    if |items| > 1 {
      var rest := items[1..];
      JoinContinuations([SP], rest);
      assert Continuations(rest) == [[SP] + rest[0]] + Continuations(rest[1..]);
      assert rest[1..] == items[2..];
      var tail := Continuations(rest);
      assert ([p + items[0]] + tail)[1..] == tail;
      assert Join([p + items[0]] + tail, [NL]) == (p + items[0]) + [NL] + Join(tail, [NL]);
    }
  }

  lemma {:induction false} JoinAllLines(fs: seq<Field>)
    requires |fs| > 0
    requires forall i :: 0 <= i < |fs| ==> WellFormedField(fs[i])
    ensures |AllLines(fs)| > 0
    ensures Join(HeaderLines(fs), [NL]) == Join(AllLines(fs), [NL])
    decreases |fs|
  {
    JoinContinuations(fs[0].key + [SP], fs[0].value.items);
    assert fs[0].key + [SP] + fs[0].value.items[0] == (fs[0].key + [SP]) + fs[0].value.items[0];
    assert Join(FieldLines(fs[0]), [NL]) == HeaderLine(fs[0]);
    if |fs| > 1 {
      JoinAllLines(fs[1..]);
      JoinConcat(FieldLines(fs[0]), AllLines(fs[1..]), [NL]);
      assert HeaderLines(fs) == [HeaderLine(fs[0])] + HeaderLines(fs[1..]);
      assert ([HeaderLine(fs[0])] + HeaderLines(fs[1..]))[1..] == HeaderLines(fs[1..]);
    } else {
      assert fs[1..] == [];
      assert AllLines(fs) == FieldLines(fs[0]) + [] == FieldLines(fs[0]);
      assert HeaderLines(fs) == [HeaderLine(fs[0])] + [] == [HeaderLine(fs[0])];
      assert Join([HeaderLine(fs[0])], [NL]) == HeaderLine(fs[0]);
    }
  }

  predicate NoNewlines(lines: seq<Text>) {
    forall i :: 0 <= i < |lines| ==> NL !in lines[i]
  }

  lemma {:induction false} AllLinesShape(fs: seq<Field>)
    requires forall i :: 0 <= i < |fs| ==> WellFormedField(fs[i])
    ensures NoNewlines(AllLines(fs))
    ensures forall i :: 0 <= i < |AllLines(fs)| ==> AllLines(fs)[i] != []
    decreases |fs|
  {
    if |fs| > 0 {
      AllLinesShape(fs[1..]);
      var f := fs[0];
      ContinuationsShape(f.value.items[1..]);
      assert NL !in f.value.items[0];
      var first := f.key + [SP] + f.value.items[0];
      assert forall k :: 0 <= k < |first| ==> first[k] != NL;
    }
  }

  lemma {:induction false} ContinuationsShape(xs: seq<Text>)
    requires NoNewlines(xs)
    ensures NoNewlines(Continuations(xs))
    ensures forall i :: 0 <= i < |xs| ==> Continuations(xs)[i] == [SP] + xs[i]
    decreases |xs|
  {
    if |xs| > 0 {
      ContinuationsShape(xs[1..]);
    }
  }

  /** Replacing the value of the last field keeps the keys unique. */
  lemma {:induction false} UniqueKeysLastValue(acc: seq<Field>, key: Text, a: Value, b: Value)
    requires UniqueKeys(acc + [Field(key, a)])
    ensures UniqueKeys(acc + [Field(key, b)])
  {
    var fs, fs' := acc + [Field(key, a)], acc + [Field(key, b)];
    assert forall j :: 0 <= j < |fs'| ==> fs'[j].key == fs[j].key;
  }

  /** One continuation line appends its value to the field of the current key. */
  lemma {:induction false} ParseContinuationLine(lines: seq<Text>, acc: seq<Field>, key: Text, ys: seq<Text>)
    requires |lines| > 0 && |lines[0]| > 0 && lines[0][0] == SP
    requires UniqueKeys(acc + [Field(key, List(ys))])
    ensures ParseHeaders(lines, acc + [Field(key, List(ys))], key)
            == ParseHeaders(lines[1..], acc + [Field(key, List(ys + [lines[0][1..]]))], key)
  {
    var fs := acc + [Field(key, List(ys))];
    var x := lines[0][1..];
    assert lines[0] == [] + [SP] + x;
    ParseStep(lines, fs, key, [], x);
    KeyIndexUnique(fs, |acc|);
    var fs' := acc + [Field(key, List(ys + [x]))];
    assert fs[|acc| := Field(key, List(ys + [x]))] == fs';
  }

  lemma {:induction false} ContinuationStep(xs: seq<Text>, rest: seq<Text>, acc: seq<Field>, key: Text, ys: seq<Text>)
    requires |xs| > 0
    requires UniqueKeys(acc + [Field(key, List(ys))])
    ensures UniqueKeys(acc + [Field(key, List(ys + [xs[0]]))])
    ensures ParseHeaders(Continuations(xs) + rest, acc + [Field(key, List(ys))], key)
            == ParseHeaders(Continuations(xs[1..]) + rest, acc + [Field(key, List(ys + [xs[0]]))], key)
  {
    var lines := Continuations(xs) + rest;
    assert lines[0] == [SP] + xs[0] && lines[0][1..] == xs[0];
    assert lines[1..] == Continuations(xs[1..]) + rest;
    ParseContinuationLine(lines, acc, key, ys);
    UniqueKeysLastValue(acc, key, List(ys), List(ys + [xs[0]]));
  }

  /** Continuation lines append, in order, to the field of the current key. */
  lemma {:induction false} ParseContinuations(xs: seq<Text>, rest: seq<Text>, acc: seq<Field>, key: Text, ys: seq<Text>, zs: seq<Text>)
    requires UniqueKeys(acc + [Field(key, List(ys))])
    requires zs == ys + xs
    ensures ParseHeaders(Continuations(xs) + rest, acc + [Field(key, List(ys))], key)
            == ParseHeaders(rest, acc + [Field(key, List(zs))], key)
    decreases |xs|
  {
    if |xs| > 0 {
      var ys' := ys + [xs[0]];
      ContinuationStep(xs, rest, acc, key, ys);
      ConsConcat(ys, xs);
      ParseContinuations(xs[1..], rest, acc, key, ys', zs);
    } else {
      assert Continuations(xs) + rest == rest && zs == ys;
    }
  }

  /** The first physical line of a field opens it as a new key. */
  lemma {:induction false} ParseFirstLine(f: Field, rest: seq<Text>, acc: seq<Field>, current: Text)
    requires WellFormedField(f) && UniqueKeys(acc + [f])
    ensures ParseHeaders([f.key + [SP] + f.value.items[0]] + rest, acc, current)
            == ParseHeaders(rest, acc + [Field(f.key, List([f.value.items[0]]))], f.key)
  {
    var lines := [f.key + [SP] + f.value.items[0]] + rest;
    assert lines[1..] == rest;
    ParseStep(lines, acc, current, f.key, f.value.items[0]);
    KeyAbsent(acc, f);
  }

  /** The physical lines of well-formed fields parse back to those fields. */
  lemma {:induction false} ParseAllLines(fs: seq<Field>, acc: seq<Field>, current: Text)
    requires UniqueKeys(acc + fs)
    requires forall i :: 0 <= i < |fs| ==> WellFormedField(fs[i])
    ensures ParseHeaders(AllLines(fs), acc, current) == Ok(acc + fs)
    decreases |fs|
  {
    if |fs| == 0 {
      assert acc + fs == acc;
    } else {
      var f := fs[0];
      var rest := AllLines(fs[1..]);
      assert AllLines(fs) == [f.key + [SP] + f.value.items[0]] + (Continuations(f.value.items[1..]) + rest);
      UniqueKeysFirst(acc, fs);
      ParseField(f, rest, acc, current);
      ConsConcat(acc, fs);
      ParseAllLines(fs[1..], acc + [f], f.key);
    }
  }

  /** The physical lines of one well-formed field parse back to that field. */
  lemma {:induction false} ParseField(f: Field, rest: seq<Text>, acc: seq<Field>, current: Text)
    requires WellFormedField(f) && UniqueKeys(acc + [f])
    ensures ParseHeaders([f.key + [SP] + f.value.items[0]] + (Continuations(f.value.items[1..]) + rest), acc, current)
            == ParseHeaders(rest, acc + [f], f.key)
  {
    var items := f.value.items;
    ParseFirstLine(f, Continuations(items[1..]) + rest, acc, current);
    UniqueKeysLastValue(acc, f.key, f.value, List([items[0]]));
    assert items == [items[0]] + items[1..];
    assert Field(f.key, List(items)) == f;
    ParseContinuations(items[1..], rest, acc, f.key, [items[0]], items);
  }

  lemma {:induction false} UniqueKeysFirst(acc: seq<Field>, fs: seq<Field>)
    requires UniqueKeys(acc + fs) && |fs| > 0
    ensures UniqueKeys(acc + [fs[0]])
  {
    assert forall j :: 0 <= j < |acc| + 1 ==> (acc + [fs[0]])[j] == (acc + fs)[j];
  }

  /** The lines of three pieces joined by newlines. */
  lemma {:induction false} Join3(a: Text, b: Text, c: Text)
    ensures Join([a, b, c], [NL]) == a + [NL] + b + [NL] + c
  {
    assert [a, b, c][1..] == [b, c];
    assert [b, c][1..] == [c];
    assert Join([b, c], [NL]) == b + [NL] + c;
  }

  /** Non-empty header lines that parse, one blank line and a message read back as
      the parsed fields and the message, whatever follows. */
  lemma {:induction false} ReadLinesOfLayout(header: seq<Text>, m: Text, later: seq<Text>, fs: seq<Field>)
    requires forall i :: 0 <= i < |header| ==> header[i] != []
    requires ParseHeaders(header, [], []) == Ok(fs)
    requires |m| > 0
    ensures ReadLines(header + [[], m] + later) == Ok(Kvlm(fs, Some(m)))
  {
    LayoutLines(header, m, later);
  }

  /** Where the reader finds the header end and the message in such lines. */
  lemma {:induction false} LayoutLines(header: seq<Text>, m: Text, later: seq<Text>)
    requires forall i :: 0 <= i < |header| ==> header[i] != []
    requires |m| > 0
    ensures var lines := header + [[], m] + later;
            && HeaderEnd(lines, 0) == Ok(|header|) && lines[..|header|] == header
            && MessageLine(lines, |header|) == Ok(|header| + 1) && lines[|header| + 1] == m
  {
    var lines := header + [[], m] + later;
    var n := |header|;
    assert forall j :: 0 <= j < n ==> lines[j] == header[j];
    HeaderEndAt(lines, 0, n);
    assert lines[..n] == header;
    assert lines[n] == [] && lines[n + 1] == m;
    assert MessageLine(lines, n + 1) == Ok(n + 1);
  }

  /** The physical header lines, one blank line, the message and anything after it
      read back as the fields and the message. */
  lemma {:induction false} ReadOfLines(fs: seq<Field>, m: Text, later: seq<Text>)
    requires UniqueKeys(fs)
    requires forall i :: 0 <= i < |fs| ==> WellFormedField(fs[i])
    requires |m| > 0
    ensures ReadLines(AllLines(fs) + [[], m] + later) == Ok(Kvlm(fs, Some(m)))
  {
    AllLinesShape(fs);
    assert [] + fs == fs;
    ParseAllLines(fs, [], []);
    ReadLinesOfLayout(AllLines(fs), m, later, fs);
  }

  /** The lines in front of the blank line of written text: the physical header
      lines, or one empty line when there are no fields. */
  function HeadLines(fs: seq<Field>): seq<Text>
    requires forall i :: 0 <= i < |fs| ==> WellFormedField(fs[i])
  {
    if |fs| == 0 then [[]] else AllLines(fs)
  }

  /** The text `kvlm_write` produces, as newline-joined lines. */
  lemma {:induction false} WrittenJoin(kv: Kvlm)
    requires WellFormed(kv)
    ensures Write(kv).Ok?
    ensures Write(kv).value == Join(HeadLines(kv.fields) + [[], kv.message.value], [NL])
  {
    if |kv.fields| == 0 {
      WrittenJoinNoFields(kv);
    } else {
      WrittenJoinFields(kv);
    }
  }

  /** Without fields, the text is two newlines and the message. */
  lemma {:induction false} WrittenJoinNoFields(kv: Kvlm)
    requires WellFormed(kv) && |kv.fields| == 0
    ensures Write(kv).Ok?
    ensures Write(kv).value == Join(HeadLines(kv.fields) + [[], kv.message.value], [NL])
  {
    var m := kv.message.value;
    assert Write(kv).value == [] + [NL] + [] + [NL] + m;
    Join3([], [], m);
    assert HeadLines(kv.fields) + [[], m] == [[], [], m];
  }

  /** With fields, the text is their lines, an empty line and the message. */
  lemma {:induction false} WrittenJoinFields(kv: Kvlm)
    requires WellFormed(kv) && |kv.fields| > 0
    ensures Write(kv).Ok?
    ensures Write(kv).value == Join(HeadLines(kv.fields) + [[], kv.message.value], [NL])
  {
    var fs := kv.fields;
    var m := kv.message.value;
    JoinAllLines(fs);
    JoinConcat(AllLines(fs), [[], m], [NL]);
    Join2([], m);
    BlankLineBetween(Join(AllLines(fs), [NL]), m);
  }

  lemma BlankLineBetween(a: Text, m: Text)
    ensures a + ([NL, NL] + m) == a + [NL] + ([] + [NL] + m)
  {
  }

  lemma {:induction false} Join2(a: Text, b: Text)
    ensures Join([a, b], [NL]) == a + [NL] + b
  {
    assert [a, b][1..] == [b];
  }

  /** The text `kvlm_write` produces, split into lines. */
  lemma {:induction false} WrittenLines(kv: Kvlm)
    requires WellFormed(kv)
    ensures Write(kv).Ok?
    ensures Split(Write(kv).value, NL) == HeadLines(kv.fields) + [[], kv.message.value]
  {
    var fs := kv.fields;
    var m := kv.message.value;
    var head := HeadLines(fs);
    WrittenJoin(kv);
    AllLinesShape(fs);
    assert NoNewlines(head);
    assert NoNewlines(head + [[], m]) by {
      assert forall i :: 0 <= i < |head| ==> (head + [[], m])[i] == head[i];
    }
    SplitJoin(head + [[], m], NL);
  }

  lemma {:induction false} DropBlankLastConcat(p: seq<Text>, tail: seq<Text>)
    requires |p| > 0 && p[|p| - 1] != []
    ensures DropBlankLast(p + tail) == p + DropBlankLast(tail)
  {
    if |tail| > 0 {
      assert (p + tail)[|p + tail| - 1] == tail[|tail| - 1];
      assert (p + tail)[..|p + tail| - 1] == p + tail[..|tail| - 1];
    } else {
      assert p + tail == p;
    }
  }

  lemma {:induction false} DropBlankFirstWritten(fs: seq<Field>, m: Text, tail: seq<Text>)
    requires forall i :: 0 <= i < |fs| ==> WellFormedField(fs[i])
    ensures DropBlankFirst(HeadLines(fs) + [[], m] + tail) == AllLines(fs) + [[], m] + tail
  {
    if |fs| > 0 {
      AllLinesShape(fs);
      DropBlankFirstKeeps(AllLines(fs), [[], m], tail);
    } else {
      DropBlankFirstEmpty(fs, m, tail);
    }
  }

  lemma {:induction false} DropBlankFirstEmpty(fs: seq<Field>, m: Text, tail: seq<Text>)
    requires |fs| == 0
    ensures DropBlankFirst(HeadLines(fs) + [[], m] + tail) == AllLines(fs) + [[], m] + tail
  {
    assert AllLines(fs) == [];
    assert HeadLines(fs) + [[], m] + tail == [[]] + ([[], m] + tail);
  }

  lemma {:induction false} DropBlankFirstKeeps(p: seq<Text>, q: seq<Text>, r: seq<Text>)
    requires |p| > 0 && p[0] != []
    ensures DropBlankFirst(p + q + r) == p + q + r
  {
    assert (p + q + r)[0] == p[0];
  }

  /** Trimming the blank ends of written lines, with anything appended, drops the
      empty first line of a field-less dictionary and a trailing empty line. */
  lemma {:induction false} TrimWritten(fs: seq<Field>, m: Text, tail: seq<Text>)
    requires forall i :: 0 <= i < |fs| ==> WellFormedField(fs[i])
    requires |m| > 0
    ensures TrimBlankEnds(HeadLines(fs) + [[], m] + tail) == AllLines(fs) + [[], m] + DropBlankLast(tail)
  {
    DropBlankFirstWritten(fs, m, tail);
    var p := AllLines(fs) + [[], m];
    assert p[|p| - 1] == m;
    DropBlankLastConcat(p, tail);
  }

  /** `kvlm_read(kvlm_write(d)) == d`, key order included, for well-formed `d`. */
  lemma {:induction false} ReadWrite(kv: Kvlm)
    requires WellFormed(kv)
    ensures Write(kv).Ok?
    ensures Read(Write(kv).value) == Ok(kv)
  {
    WrittenLines(kv);
    ReadOfSplit(Write(kv).value, kv.fields, kv.message.value);
  }

  /** Text that splits into the lines of well-formed fields, an empty line and a
      message reads back as those fields and that message. */
  lemma {:induction false} ReadOfSplit(text: Text, fs: seq<Field>, m: Text)
    requires UniqueKeys(fs) && forall i :: 0 <= i < |fs| ==> WellFormedField(fs[i])
    requires |m| > 0
    requires Split(text, NL) == HeadLines(fs) + [[], m]
    ensures Read(text) == Ok(Kvlm(fs, Some(m)))
  {
    var lines := HeadLines(fs) + [[], m];
    TrimWritten(fs, m, []);
    AppendEmpty(lines);
    AppendEmpty(AllLines(fs) + [[], m]);
    ReadOfLines(fs, m, []);
  }

  lemma AppendEmpty<T>(s: seq<T>)
    ensures s + [] == s
  {
  }

  /** Everything after the message line is dropped by the reader. */
  lemma {:induction false} ReadDropsLaterLines(kv: Kvlm, later: Text)
    requires WellFormed(kv)
    ensures Write(kv).Ok?
    ensures Read(Write(kv).value + [NL] + later) == Ok(kv)
  {
    var fs := kv.fields;
    var m := kv.message.value;
    var text := Write(kv).value;
    WrittenLines(kv);
    SplitAroundSeparator(text, later, NL);
    TrimWritten(fs, m, Split(later, NL));
    ReadOfLines(fs, m, DropBlankLast(Split(later, NL)));
  }

  // ---------------------------------------------------------------------------
  // Failures

  /** Text with no newline never reaches an empty line: IndexError. */
  lemma {:induction false} ReadWithoutNewlineFails(data: Text)
    requires |data| > 0 && NL !in data
    ensures Read(data) == Err(IndexOutOfRange)
  {
    assert Find(data, NL, 0) == None;
    assert Split(data, NL) == [data];
  }

  /** A header line without a space is a parsing error. */
  lemma {:induction false} ReadHeaderWithoutSpaceFails(h: Text, m: Text)
    requires |h| > 0 && NL !in h && SP !in h
    requires |m| > 0 && NL !in m
    ensures Read(h + [NL, NL] + m) == Err(ParsingError)
  {
    var data := h + [NL, NL] + m;
    Join3(h, [], m);
    assert data == h + [NL] + [] + [NL] + m;
    SplitJoin([h, [], m], NL);
    var lines := [h, [], m];
    assert TrimBlankEnds(Split(data, NL)) == lines;
    assert HeaderEnd(lines, 0) == Ok(1);
    assert lines[..1] == [h];
  }

  /** Headers followed by a blank line and nothing else: the message scan runs off
      the end of the lines. */
  lemma {:induction false} ReadWithoutMessageFails(h: Text)
    requires |h| > 0 && NL !in h && SP in h
    ensures Read(h + [NL, NL]) == Err(IndexOutOfRange)
  {
    HeaderOnlySplits(h);
    assert TrimBlankEnds([h, [], []]) == [h, []] by {
      assert DropBlankFirst([h, [], []]) == [h, [], []];
    }
    HeaderOnlyFails(h);
  }

  /** A header line and a blank line split into the header and two empty lines. */
  lemma {:induction false} HeaderOnlySplits(h: Text)
    requires NL !in h
    ensures Split(h + [NL, NL], NL) == [h, [], []]
  {
    Join3(h, [], []);
    assert h + [NL, NL] == Join([h, [], []], [NL]);
    SplitJoin([h, [], []], NL);
  }

  /** Reading a header line and a blank line finds no message line. */
  lemma {:induction false} HeaderOnlyFails(h: Text)
    requires |h| > 0 && NL !in h && SP in h
    ensures ReadLines([h, []]) == Err(IndexOutOfRange)
  {
    var lines := [h, []];
    HeaderEndAt(lines, 0, 1);
    assert lines[..1] == [h];
    ParseHeadersFails([h], [], []);
    assert MessageLine(lines, 2) == Err(IndexOutOfRange);
  }

}
