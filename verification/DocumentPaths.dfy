/**
 * What the rows of the audit diff show: their paths as dotted texts. When texts tell paths apart, where a diff has
 * its rows, and when no two of its rows show the same text.
 */
module DocumentPaths {
  import opened Wrappers
  import opened Texts
  import opened Documents

  /** A path as the rows show it: its keys joined with dots. */
  function Rendered(path: Path): string {
    if path == [] then ""
    else
      var before, key := Rendered(path[..|path| - 1]), path[|path| - 1];
      if before == "" then key else before + "." + key
  }

  // ------------------------------------------------- what a text tells of a path

  /** The parts of a text between its dots. */
  function Split(text: string): (r: seq<string>)
    ensures r != []
  {
    if text == "" then [""]
    else
      var rest := Split(text[1..]);
      if text[0] == '.' then [""] + rest else [[text[0]] + rest[0]] + rest[1..]
  }

  /** All the parts of a path's keys, one key after the other. */
  function Flat(path: Path): seq<string> {
    if path == [] then [] else Flat(path[..|path| - 1]) + Split(path[|path| - 1])
  }

  /** Empty keys at the front leave no trace in the text. */
  function Strip(path: Path): Path {
    if path != [] && path[0] == "" then Strip(path[1..]) else path
  }

  lemma {:induction false} SplitAtDot(x: string, k: string)
    ensures Split(x + "." + k) == Split(x) + Split(k)
    decreases |x|
  {
    var t := x + "." + k;
    if x == "" {
      assert t[1..] == k;
    } else {
      assert t[1..] == x[1..] + "." + k;
      SplitAtDot(x[1..], k);
    }
  }

  lemma {:induction false} SplitInjective(s: string, t: string)
    requires Split(s) == Split(t)
    ensures s == t
    decreases |s|
  {
    if s != "" && t != "" {
      var a, b := Split(s[1..]), Split(t[1..]);
      assert Split(s)[1..] == if s[0] == '.' then a else a[1..];
      assert Split(t)[1..] == if t[0] == '.' then b else b[1..];
      if s[0] != '.' {
        assert Split(s)[0][1..] == a[0] && Split(t)[0][1..] == b[0];
        assert a == [a[0]] + a[1..] && b == [b[0]] + b[1..];
      }
      SplitInjective(s[1..], t[1..]);
      assert s == [s[0]] + s[1..] && t == [t[0]] + t[1..];
    }
  }

  lemma {:induction false} StripLast(path: Path, k: string)
    ensures Strip(path + [k]) == if Strip(path) != [] then Strip(path) + [k] else if k == "" then [] else [k]
    decreases |path|
  {
    if path == [] {
      assert path + [k] == [k] && [k][1..] == [];
    } else if path[0] == "" {
      assert (path + [k])[1..] == path[1..] + [k];
      StripLast(path[1..], k);
    }
  }

  /** The parts of a path's text are those of its keys. */
  lemma {:induction false} RenderedParts(path: Path)
    ensures Rendered(path) == "" <==> Strip(path) == []
    ensures Strip(path) != [] ==> Split(Rendered(path)) == Flat(Strip(path))
    decreases |path|
  {
    if path != [] {
      var before, key := path[..|path| - 1], path[|path| - 1];
      RenderedParts(before);
      assert path == before + [key];
      StripLast(before, key);
      SplitAtDot(Rendered(before), key);
      var stripped := Strip(before);
      assert stripped != [] ==> (stripped + [key])[..|stripped + [key]| - 1] == stripped;
      assert [key][..0] == [];
    }
  }

  lemma FlatIsEmptyIff(path: Path)
    ensures Flat(path) == [] <==> path == []
  {
  }

  /** Exactly when two paths, whatever their keys, show as one text. */
  lemma RenderedAlikeIff(p: Path, q: Path)
    ensures Rendered(p) == Rendered(q) <==> Flat(Strip(p)) == Flat(Strip(q))
  {
    RenderedParts(p);
    RenderedParts(q);
    FlatIsEmptyIff(Strip(p));
    FlatIsEmptyIff(Strip(q));
    if Flat(Strip(p)) == Flat(Strip(q)) && Strip(p) != [] {
      SplitInjective(Rendered(p), Rendered(q));
    }
  }

  /** A key that neither is empty nor holds a dot. */
  predicate Plain(key: string) {
    key != "" && '.' !in key
  }

  predicate PlainPath(path: Path) {
    forall k | k in path :: Plain(k)
  }

  lemma {:induction false} SplitPlain(key: string)
    requires '.' !in key
    ensures Split(key) == [key]
  {
    if key != "" {
      assert key == [key[0]] + key[1..] && key[0] in key;
      SplitPlain(key[1..]);
    }
  }

  lemma {:induction false} FlatPlain(path: Path)
    requires PlainPath(path)
    ensures Flat(path) == path == Strip(path)
    decreases |path|
  {
    if path != [] {
      var before, key := path[..|path| - 1], path[|path| - 1];
      assert forall k | k in before :: k in path;
      FlatPlain(before);
      assert Plain(key) && Plain(path[0]);
      SplitPlain(key);
      assert path == before + [key];
    }
  }

  /** Without empty keys and dots in keys, the text of a path tells it from every other. */
  lemma RenderedInjective(p: Path, q: Path)
    requires PlainPath(p) && PlainPath(q)
    ensures Rendered(p) == Rendered(q) <==> p == q
  {
    FlatPlain(p);
    FlatPlain(q);
    RenderedAlikeIff(p, q);
  }

  // ------------------------------------------------------ where a diff has rows

  ghost predicate BothDicts(was: Doc, now: Doc, path: Path) {
    && Lookup(was, path).Some? && Lookup(was, path).value.Dict?
    && Lookup(now, path).Some? && Lookup(now, path).value.Dict?
  }

  /**
   * The documents differ at the path, which both of them lead to through dictionaries, and do not both have a
   * dictionary there.
   */
  ghost predicate RowPlace(was: Doc, now: Doc, path: Path) {
    && Lookup(was, path) != Lookup(now, path)
    && !BothDicts(was, now, path)
    && forall i | 0 <= i < |path| :: BothDicts(was, now, path[..i])
  }

  ghost predicate HasRow(changes: seq<Change>, path: Path) {
    exists c :: c in changes && c.path == path
  }

  /** Below a key both have, the places are those of the two values. */
  lemma RowPlaceBelow(was: Doc, now: Doc, at: Path)
    requires was.Dict? && now.Dict? && at != [] && at[0] in was.entries && at[0] in now.entries
    ensures RowPlace(was, now, at) <==> RowPlace(was.entries[at[0]], now.entries[at[0]], at[1..])
  {
    var a, b, rest := was.entries[at[0]], now.entries[at[0]], at[1..];
    forall i | 0 < i <= |at| ensures BothDicts(was, now, at[..i]) <==> BothDicts(a, b, rest[..i - 1]) {
      assert at[..i][1..] == rest[..i - 1];
    }
    assert at[..|at|] == at && rest[..|rest|] == rest;
    assert at[..0] == [];
    if RowPlace(was, now, at) {
      forall i | 0 <= i < |rest| ensures BothDicts(a, b, rest[..i]) {
        assert BothDicts(was, now, at[..i + 1]);
      }
    }
    if RowPlace(a, b, rest) {
      forall i | 0 <= i < |at| ensures BothDicts(was, now, at[..i]) {
        if i > 0 { assert BothDicts(a, b, rest[..i - 1]); }
      }
    }
  }

  /** At a key only one of them has there is a place, and nothing below it. */
  lemma RowPlaceAtOwnKey(was: Doc, now: Doc, at: Path)
    requires was.Dict? && now.Dict? && at != [] && !(at[0] in was.entries && at[0] in now.entries)
    ensures RowPlace(was, now, at) <==> |at| == 1 && (at[0] in was.entries || at[0] in now.entries)
  {
    if |at| == 1 {
      assert at[1..] == [] && at[..0] == [];
      assert BothDicts(was, now, at[..0]);
      assert Lookup(was, at) == if at[0] in was.entries then Some(was.entries[at[0]]) else None;
      assert Lookup(now, at) == if at[0] in now.entries then Some(now.entries[at[0]]) else None;
    } else {
      assert at[..1][0] == at[0];
      assert !BothDicts(was, now, at[..1]);
    }
  }

  lemma RowPlaceAtRoot(was: Doc, now: Doc, at: Path)
    requires !(was.Dict? && now.Dict?)
    ensures RowPlace(was, now, at) <==> at == [] && was != now
  {
    if at != [] {
      assert at[..0] == [];
      assert !BothDicts(was, now, at[..0]);
    }
  }

  lemma RowsAtRoot(was: Doc, now: Doc, path: Path, at: Path)
    requires !(was.Dict? && now.Dict?)
    ensures HasRow(Diff(was, now, path), path + at) <==> RowPlace(was, now, at)
  {
    RowPlaceAtRoot(was, now, at);
    if was != now {
      assert Diff(was, now, path)[0] in Diff(was, now, path);
    }
  }

  lemma RowsAtDictRoot(was: Doc, now: Doc, path: Path)
    requires was.Dict? && now.Dict?
    ensures !HasRow(Diff(was, now, path), path + []) && !RowPlace(was, now, [])
  {
    DictRowsAreBelow(was, now, path);
    assert path + [] == path;
  }

  lemma RowsAtOwnKey(was: Doc, now: Doc, path: Path, at: Path)
    requires was.Dict? && now.Dict? && at != [] && !(at[0] in was.entries && at[0] in now.entries)
    ensures HasRow(Diff(was, now, path), path + at) <==> RowPlace(was, now, at)
  {
    DiffHasRowIff(was, now, path, at);
    RowPlaceAtOwnKey(was, now, at);
    if at[0] in was.entries || at[0] in now.entries {
      OwnKeyRow(was, now, path, at);
    }
  }

  lemma RowsAtSharedKey(was: Doc, now: Doc, path: Path, at: Path)
    requires was.Dict? && now.Dict? && at != [] && at[0] in was.entries && at[0] in now.entries
    requires HasRow(DiffKey(at[0], was, now, path), path + [at[0]] + at[1..]) <==>
             RowPlace(was.entries[at[0]], now.entries[at[0]], at[1..])
    ensures HasRow(Diff(was, now, path), path + at) <==> RowPlace(was, now, at)
  {
    assert path + [at[0]] + at[1..] == path + at;
    DiffHasRowIff(was, now, path, at);
    RowPlaceBelow(was, now, at);
  }

  /** A diff has a row for a path exactly when that is such a place. */
  lemma {:induction false} RowsAreAtRowPlaces(was: Doc, now: Doc, path: Path, at: Path)
    ensures HasRow(Diff(was, now, path), path + at) <==> RowPlace(was, now, at)
    decreases |at|
  {
    if !(was.Dict? && now.Dict?) {
      RowsAtRoot(was, now, path, at);
    } else if at == [] {
      RowsAtDictRoot(was, now, path);
    } else if at[0] in was.entries && at[0] in now.entries {
      RowsAreAtRowPlaces(was.entries[at[0]], now.entries[at[0]], path + [at[0]], at[1..]);
      RowsAtSharedKey(was, now, path, at);
    } else {
      RowsAtOwnKey(was, now, path, at);
    }
  }

  lemma OwnKeyRow(was: Doc, now: Doc, path: Path, at: Path)
    requires was.Dict? && now.Dict? && at != [] && !(at[0] in was.entries && at[0] in now.entries)
    requires at[0] in was.entries || at[0] in now.entries
    ensures HasRow(DiffKey(at[0], was, now, path), path + at) <==> |at| == 1
  {
    var rows := DiffKey(at[0], was, now, path);
    assert rows == [rows[0]] && rows[0] in rows && rows[0].path == path + [at[0]];
    if |at| == 1 {
      assert at == [at[0]];
    }
  }

  /** The rows for paths that start with a key are that key's. */
  lemma DiffHasRowIff(was: Doc, now: Doc, path: Path, at: Path)
    requires was.Dict? && now.Dict? && at != []
    ensures HasRow(Diff(was, now, path), path + at) <==>
            (at[0] in was.entries || at[0] in now.entries) && HasRow(DiffKey(at[0], was, now, path), path + at)
  {
    KeysHaveRowIff(SortedKeys(was.entries.Keys + now.entries.Keys), was, now, path, at);
  }

  lemma {:induction false} KeysHaveRowIff(keys: seq<string>, was: Doc, now: Doc, path: Path, at: Path)
    requires was.Dict? && now.Dict? && at != []
    requires forall k | k in keys :: k in was.entries || k in now.entries
    ensures HasRow(DiffKeys(keys, was, now, path), path + at) <==>
            at[0] in keys && HasRow(DiffKey(at[0], was, now, path), path + at)
    decreases |keys|
  {
    if keys != [] {
      var k := keys[0];
      var head, tail := DiffKey(k, was, now, path), DiffKeys(keys[1..], was, now, path);
      KeysHaveRowIff(keys[1..], was, now, path, at);
      assert DiffKeys(keys, was, now, path) == head + tail;
      assert HasRow(head + tail, path + at) <==> HasRow(head, path + at) || HasRow(tail, path + at);
      assert keys == [k] + keys[1..];
      KeyRowsUnder(k, was, now, path);
      assert HasRow(head, path + at) ==> (path + at)[|path|] == k;
    }
  }

  lemma KeyRowsUnder(k: string, was: Doc, now: Doc, path: Path)
    requires was.Dict? && now.Dict? && (k in was.entries || k in now.entries)
    ensures forall c | c in DiffKey(k, was, now, path) :: |c.path| > |path| && c.path[|path|] == k
  {
    if k in was.entries && k in now.entries {
      DiffPrefixFree(was.entries[k], now.entries[k], path + [k]);
    }
    forall c | c in DiffKey(k, was, now, path) ensures |c.path| > |path| && c.path[|path|] == k {
      assert path + [k] <= c.path;
      assert c.path[|path|] == (path + [k])[|path|];
    }
  }

  // ------------------------------------------------------ rows that look alike

  ghost predicate RowsLookDifferent(rows: seq<Change>) {
    forall i, j | 0 <= i < j < |rows| :: Rendered(rows[i].path) != Rendered(rows[j].path)
  }

  /** Different places where the documents differ have different parts. */
  ghost predicate PlacesSplitApart(was: Doc, now: Doc) {
    forall p, q | RowPlace(was, now, p) && RowPlace(was, now, q) && Flat(Strip(p)) == Flat(Strip(q)) :: p == q
  }

  /** All rows of a diff show different texts if and only if no two of the places have the same parts. */
  lemma RowsShowDifferentPathsIff(was: Doc, now: Doc)
    ensures RowsLookDifferent(Diff(was, now, [])) <==> PlacesSplitApart(was, now)
  {
    if RowsLookDifferent(Diff(was, now, [])) {
      DifferentRowsSplitApart(was, now);
    }
    if PlacesSplitApart(was, now) {
      SplitApartRowsDiffer(was, now);
    }
  }

  lemma DifferentRowsSplitApart(was: Doc, now: Doc)
    requires RowsLookDifferent(Diff(was, now, []))
    ensures PlacesSplitApart(was, now)
  {
    var rows := Diff(was, now, []);
    forall p, q | RowPlace(was, now, p) && RowPlace(was, now, q) && Flat(Strip(p)) == Flat(Strip(q)) ensures p == q {
      assert [] + p == p && [] + q == q;
      RowsAreAtRowPlaces(was, now, [], p);
      RowsAreAtRowPlaces(was, now, [], q);
      RenderedAlikeIff(p, q);
      var c :| c in rows && c.path == p;
      var d :| d in rows && d.path == q;
      var i :| 0 <= i < |rows| && rows[i] == c;
      var j :| 0 <= j < |rows| && rows[j] == d;
      assert i == j;
    }
  }

  lemma SplitApartRowsDiffer(was: Doc, now: Doc)
    requires PlacesSplitApart(was, now)
    ensures RowsLookDifferent(Diff(was, now, []))
  {
    var rows := Diff(was, now, []);
    DiffPrefixFree(was, now, []);
    forall i, j | 0 <= i < j < |rows| ensures Rendered(rows[i].path) != Rendered(rows[j].path) {
      var p, q := rows[i].path, rows[j].path;
      assert rows[i] in rows && rows[j] in rows && [] + p == p && [] + q == q;
      RowsAreAtRowPlaces(was, now, [], p);
      RowsAreAtRowPlaces(was, now, [], q);
      RenderedAlikeIff(p, q);
      assert !Comparable(p, q);
    }
  }

  /** Every key at every depth is plain. */
  predicate PlainKeys(doc: Doc) {
    doc.Dict? ==> forall k | k in doc.entries :: Plain(k) && PlainKeys(doc.entries[k])
  }

  lemma {:induction false} PlainPlaces(was: Doc, now: Doc, at: Path)
    requires PlainKeys(was) && PlainKeys(now) && RowPlace(was, now, at)
    ensures PlainPath(at)
    decreases |at|
  {
    if at != [] {
      var k := at[0];
      assert at[..0] == [] && BothDicts(was, now, at[..0]);
      if k in was.entries && k in now.entries {
        RowPlaceBelow(was, now, at);
        PlainPlaces(was.entries[k], now.entries[k], at[1..]);
      } else {
        RowPlaceAtOwnKey(was, now, at);
      }
      assert at == [k] + at[1..];
    }
  }

  /** Documents whose keys are all plain are among those. */
  lemma RowsShowDifferentPaths(was: Doc, now: Doc)
    requires PlainKeys(was) && PlainKeys(now)
    ensures RowsLookDifferent(Diff(was, now, []))
  {
    forall p, q | RowPlace(was, now, p) && RowPlace(was, now, q) && Flat(Strip(p)) == Flat(Strip(q)) ensures p == q {
      PlainPlaces(was, now, p);
      PlainPlaces(was, now, q);
      FlatPlain(p);
      FlatPlain(q);
    }
    RowsShowDifferentPathsIff(was, now);
  }

  /** Others are not: a key "a.b" added beside a key "b" inside "a" gives two rows that both read "a.b". */
  lemma DottedKeyLooksNested(value: Doc)
    ensures var was := Dict(map["a" := Dict(map[])]);
            var now := Dict(map["a" := Dict(map["b" := value]), "a.b" := value]);
            && RowPlace(was, now, ["a", "b"]) && RowPlace(was, now, ["a.b"])
            && Rendered(["a", "b"]) == Rendered(["a.b"]) == "a.b"
            && !RowsLookDifferent(Diff(was, now, []))
  {
    var was := Dict(map["a" := Dict(map[])]);
    var now := Dict(map["a" := Dict(map["b" := value]), "a.b" := value]);
    var p, q := ["a", "b"], ["a.b"];
    assert "a" in was.entries && "a" in now.entries && p[0] == "a" && p[1..] == ["b"];
    RowPlaceBelow(was, now, p);
    RowPlaceAtOwnKey(was.entries["a"], now.entries["a"], ["b"]);
    RowPlaceAtOwnKey(was, now, q);
    assert p[..1] == ["a"] && ["a"][..0] == [] && q[..0] == [];
    assert "a" + "." + "b" == "a.b";
    RenderedAlikeIff(p, q);
    RowsShowDifferentPathsIff(was, now);
  }
}
