/**
 * Configuration documents and the three structural recursions over them: the audit diff and the
 * schema migration of gateway/sbegw/configd.py, and the deep update of gateway/sbegw/api.py.
 */
module Documents {
  import opened Wrappers
  import opened Texts

  datatype Atom = Null | Bool(b: bool) | Num(n: int) | Text(s: string)

  datatype Doc =
    | Leaf(atom: Atom)
    | List(items: seq<Doc>)
    | Dict(entries: map<string, Doc>)

  const NULL := Leaf(Null)

  type Path = seq<string>

  /** One row of the audit diff. A side that lacks the key is reported as null, as the code does. */
  datatype Change = Change(path: Path, was: Doc, now: Doc)

  // ------------------------------------------------------------------ diff

  function Diff(was: Doc, now: Doc, path: Path): seq<Change>
    decreases was, 1, 0
  {
    if was.Dict? && now.Dict? then
      DiffKeys(SortedKeys(was.entries.Keys + now.entries.Keys), was, now, path)
    else if was != now then [Change(path, was, now)]
    else []
  }

  function DiffKeys(keys: seq<string>, was: Doc, now: Doc, path: Path): seq<Change>
    requires was.Dict? && now.Dict?
    requires forall k | k in keys :: k in was.entries || k in now.entries
    decreases was, 0, |keys|
  {
    if keys == [] then []
    else DiffKey(keys[0], was, now, path) + DiffKeys(keys[1..], was, now, path)
  }

  function DiffKey(key: string, was: Doc, now: Doc, path: Path): seq<Change>
    requires was.Dict? && now.Dict?
    requires key in was.entries || key in now.entries
    decreases was, 0, 0
  {
    if key !in was.entries then [Change(path + [key], NULL, now.entries[key])]
    else if key !in now.entries then [Change(path + [key], was.entries[key], NULL)]
    else Diff(was.entries[key], now.entries[key], path + [key])
  }

  /** The value at a key path, if the document has one there. */
  function Lookup(doc: Doc, path: Path): Option<Doc>
    decreases |path|
  {
    if path == [] then Some(doc)
    else if doc.Dict? && path[0] in doc.entries then Lookup(doc.entries[path[0]], path[1..])
    else None
  }

  function OrNull(found: Option<Doc>): Doc {
    if found.Some? then found.value else NULL
  }

  // A change list is empty exactly when nothing changed, so an empty commit is really empty.

  lemma {:induction false} DiffEmptyIffEqual(was: Doc, now: Doc, path: Path)
    ensures Diff(was, now, path) == [] <==> was == now
    decreases was, 1, 0
  {
    if was.Dict? && now.Dict? {
      var keys := SortedKeys(was.entries.Keys + now.entries.Keys);
      DiffKeysEmptyIffEqual(keys, was, now, path);
      if forall k | k in keys :: SameAt(was, now, k) {
        assert was.entries.Keys == now.entries.Keys by {
          forall k ensures k in was.entries <==> k in now.entries {
            if k in was.entries || k in now.entries {
              assert k in keys;
              assert SameAt(was, now, k);
            }
          }
        }
        forall k | k in was.entries ensures was.entries[k] == now.entries[k] {
          assert k in keys;
          assert SameAt(was, now, k);
        }
        assert was.entries == now.entries;
      }
    }
  }

  predicate SameAt(was: Doc, now: Doc, k: string)
    requires was.Dict? && now.Dict?
  {
    k in was.entries && k in now.entries && was.entries[k] == now.entries[k]
  }

  lemma {:induction false} DiffKeysEmptyIffEqual(keys: seq<string>, was: Doc, now: Doc, path: Path)
    requires was.Dict? && now.Dict?
    requires forall k | k in keys :: k in was.entries || k in now.entries
    ensures DiffKeys(keys, was, now, path) == [] <==> forall k | k in keys :: SameAt(was, now, k)
    decreases was, 0, |keys|
  {
    if keys != [] {
      var k := keys[0];
      if k in was.entries && k in now.entries {
        DiffEmptyIffEqual(was.entries[k], now.entries[k], path + [k]);
      }
      DiffKeysEmptyIffEqual(keys[1..], was, now, path);
      assert keys == [k] + keys[1..];
      assert DiffKey(k, was, now, path) == [] <==> SameAt(was, now, k);
      assert |DiffKeys(keys, was, now, path)| ==
             |DiffKey(k, was, now, path)| + |DiffKeys(keys[1..], was, now, path)|;
      assert forall x | x in keys :: x == k || x in keys[1..];
    }
  }

  // Every reported path starts where the diff was asked to start, and no reported path leads into
  // another one: the rows describe disjoint parts of the document.

  predicate Comparable(p: Path, q: Path) {
    p <= q || q <= p
  }

  predicate PrefixFree(changes: seq<Change>) {
    forall i, j | 0 <= i < j < |changes| :: !Comparable(changes[i].path, changes[j].path)
  }

  predicate AllUnder(changes: seq<Change>, path: Path) {
    forall i | 0 <= i < |changes| :: path <= changes[i].path
  }

  lemma {:induction false} DiffPrefixFree(was: Doc, now: Doc, path: Path)
    ensures AllUnder(Diff(was, now, path), path)
    ensures PrefixFree(Diff(was, now, path))
    decreases was, 1, 0
  {
    if was.Dict? && now.Dict? {
      DiffKeysPrefixFree(SortedKeys(was.entries.Keys + now.entries.Keys), was, now, path);
    }
  }

  lemma {:induction false} DiffKeysPrefixFree(keys: seq<string>, was: Doc, now: Doc, path: Path)
    requires was.Dict? && now.Dict?
    requires forall k | k in keys :: k in was.entries || k in now.entries
    requires Distinct(keys)
    ensures AllUnder(DiffKeys(keys, was, now, path), path)
    ensures forall i | 0 <= i < |DiffKeys(keys, was, now, path)| ::
              var p := DiffKeys(keys, was, now, path)[i].path;
              |p| > |path| && p[|path|] in keys
    ensures PrefixFree(DiffKeys(keys, was, now, path))
    decreases was, 0, |keys|
  {
    if keys != [] {
      var k := keys[0];
      var head := DiffKey(k, was, now, path);
      var tail := DiffKeys(keys[1..], was, now, path);
      if k in was.entries && k in now.entries {
        DiffPrefixFree(was.entries[k], now.entries[k], path + [k]);
      }
      assert AllUnder(head, path + [k]);
      assert forall i | 0 <= i < |head| :: head[i].path[|path|] == (path + [k])[|path|] == k;
      DiffKeysPrefixFree(keys[1..], was, now, path);
      assert keys == [k] + keys[1..];
      assert k !in keys[1..];
      assert DiffKeys(keys, was, now, path) == head + tail;
      forall i, j | 0 <= i < |head| && 0 <= j < |tail|
        ensures !Comparable(head[i].path, tail[j].path)
      {
        assert head[i].path[|path|] == k;
        assert tail[j].path[|path|] in keys[1..];
      }
    }
  }

  lemma DictRowsAreBelow(was: Doc, now: Doc, path: Path)
    requires was.Dict? && now.Dict?
    ensures forall c | c in Diff(was, now, path) :: |c.path| > |path|
  {
    DiffKeysPrefixFree(SortedKeys(was.entries.Keys + now.entries.Keys), was, now, path);
  }

  // What the rows say is true: each names a place where the two documents differ, with the two values
  // found there; and every place where they differ is inside, or contains, a reported place.

  lemma {:induction false} DiffSound(was: Doc, now: Doc, path: Path)
    ensures forall i | 0 <= i < |Diff(was, now, path)| ::
              Describes(Diff(was, now, path)[i], was, now, path)
    decreases was, 1, 0
  {
    if was.Dict? && now.Dict? {
      DiffKeysSound(SortedKeys(was.entries.Keys + now.entries.Keys), was, now, path);
    } else if was != now {
      assert path[|path|..] == [];
      assert Describes(Change(path, was, now), was, now, path);
    }
  }

  predicate Describes(c: Change, was: Doc, now: Doc, path: Path) {
    && path <= c.path
    && var at := c.path[|path|..];
       && Lookup(was, at) != Lookup(now, at)
       && c.was == OrNull(Lookup(was, at))
       && c.now == OrNull(Lookup(now, at))
  }

  lemma {:induction false} DescribesUnder(c: Change, was: Doc, now: Doc, path: Path, k: string)
    requires was.Dict? && now.Dict? && k in was.entries && k in now.entries
    requires Describes(c, was.entries[k], now.entries[k], path + [k])
    ensures Describes(c, was, now, path)
  {
    var at := c.path[|path|..];
    assert at[1..] == c.path[|path + [k]|..];
    assert at[0] == (path + [k])[|path|] == k;
  }

  lemma {:induction false} DiffKeysSound(keys: seq<string>, was: Doc, now: Doc, path: Path)
    requires was.Dict? && now.Dict?
    requires forall k | k in keys :: k in was.entries || k in now.entries
    ensures forall i | 0 <= i < |DiffKeys(keys, was, now, path)| ::
              Describes(DiffKeys(keys, was, now, path)[i], was, now, path)
    decreases was, 0, |keys|
  {
    if keys != [] {
      var k := keys[0];
      var head := DiffKey(k, was, now, path);
      forall i | 0 <= i < |head| ensures Describes(head[i], was, now, path) {
        if k in was.entries && k in now.entries {
          DiffSound(was.entries[k], now.entries[k], path + [k]);
          assert head == Diff(was.entries[k], now.entries[k], path + [k]);
          DescribesUnder(head[i], was, now, path, k);
        } else {
          var at := head[i].path[|path|..];
          assert at == [k] && at[1..] == [];
          assert Lookup(was, at) == (if k in was.entries then Some(was.entries[k]) else None);
          assert Lookup(now, at) == (if k in now.entries then Some(now.entries[k]) else None);
        }
      }
      DiffKeysSound(keys[1..], was, now, path);
    }
  }

  predicate Touches(changes: seq<Change>, path: Path) {
    exists i :: 0 <= i < |changes| && Comparable(changes[i].path, path)
  }

  lemma {:induction false} DiffComplete(was: Doc, now: Doc, path: Path, at: Path)
    requires Lookup(was, at) != Lookup(now, at)
    ensures Touches(Diff(was, now, path), path + at)
    decreases |at|
  {
    if was.Dict? && now.Dict? && at != [] {
      var k := at[0];
      var keys := SortedKeys(was.entries.Keys + now.entries.Keys);
      assert k in keys;
      assert path + at == path + [k] + at[1..];
      var part := DiffKey(k, was, now, path);
      if k in was.entries && k in now.entries {
        DiffComplete(was.entries[k], now.entries[k], path + [k], at[1..]);
      } else {
        assert Comparable(part[0].path, path + at);
      }
      DiffKeyWithin(keys, k, was, now, path);
      TouchesWithin(part, Diff(was, now, path), path + at);
    } else {
      assert was != now;
      DiffEmptyIffEqual(was, now, path);
      DiffPrefixFree(was, now, path);
      var c := Diff(was, now, path)[0];
      if at == [] {
        assert path + at == path;
        assert Comparable(c.path, path + at);
      } else {
        assert Comparable(path, path + at);
      }
    }
  }

  lemma {:induction false} DiffKeyWithin(keys: seq<string>, k: string, was: Doc, now: Doc, path: Path)
    requires was.Dict? && now.Dict?
    requires forall x | x in keys :: x in was.entries || x in now.entries
    requires k in keys
    ensures forall c | c in DiffKey(k, was, now, path) :: c in DiffKeys(keys, was, now, path)
    decreases |keys|
  {
    if k != keys[0] {
      assert keys == [keys[0]] + keys[1..];
      DiffKeyWithin(keys[1..], k, was, now, path);
    }
  }

  lemma TouchesWithin(part: seq<Change>, whole: seq<Change>, path: Path)
    requires Touches(part, path)
    requires forall c | c in part :: c in whole
    ensures Touches(whole, path)
  {
    var i :| 0 <= i < |part| && Comparable(part[i].path, path);
    assert part[i] in whole;
    var j :| 0 <= j < |whole| && whole[j] == part[i];
  }

  // ------------------------------------------------------------- migration

  /** What merging the defaults `src` into the document `dst` leaves behind: keys are only ever added. */
  function Merge(dst: Doc, src: Doc): (r: Doc)
    requires dst.Dict? && src.Dict?
    ensures r.Dict?
    decreases src
  {
    Dict(map k | k in dst.entries.Keys + src.entries.Keys ::
           if k !in dst.entries then src.entries[k]
           else if k in src.entries && src.entries[k].Dict? && dst.entries[k].Dict? then
             Merge(dst.entries[k], src.entries[k])
           else dst.entries[k])
  }

  /** What an API patch leaves behind: the patch wins, dictionaries on both sides are patched inside. */
  function DeepUpdate(target: Doc, updates: Doc): (r: Doc)
    requires target.Dict? && updates.Dict?
    ensures r.Dict?
    decreases updates
  {
    Dict(map k | k in target.entries.Keys + updates.entries.Keys ::
           if k !in updates.entries then target.entries[k]
           else if updates.entries[k].Dict? && k in target.entries && target.entries[k].Dict? then
             DeepUpdate(target.entries[k], updates.entries[k])
           else updates.entries[k])
  }

  /** The migration's merge, done key by key on the document being migrated. */
  method MergeInto(dst: Doc, src: Doc) returns (out: Doc)
    requires dst.Dict? && src.Dict?
    ensures out == Merge(dst, src)
    decreases src
  {
    var entries := dst.entries;
    var todo := src.entries.Keys;
    while todo != {}
      invariant todo <= src.entries.Keys
      invariant entries.Keys == dst.entries.Keys + (src.entries.Keys - todo)
      invariant forall k | k in entries ::
                  entries[k] == if k in src.entries && k !in todo then Merge(dst, src).entries[k] else dst.entries[k]
      decreases todo
    {
      var key :| key in todo;
      var value := src.entries[key];
      if key !in entries {
        entries := entries[key := value];
      } else if value.Dict? && entries[key].Dict? {
        var inner := MergeInto(entries[key], value);
        entries := entries[key := inner];
      }
      todo := todo - {key};
    }
    out := Dict(entries);
    assert out.entries == Merge(dst, src).entries;
  }

  /** The API's deep update, done key by key on the target. */
  method DeepUpdateInto(target: Doc, updates: Doc) returns (out: Doc)
    requires target.Dict? && updates.Dict?
    ensures out == DeepUpdate(target, updates)
    decreases updates
  {
    var entries := target.entries;
    var todo := updates.entries.Keys;
    while todo != {}
      invariant todo <= updates.entries.Keys
      invariant entries.Keys == target.entries.Keys + (updates.entries.Keys - todo)
      invariant forall k | k in entries ::
                  entries[k] == if k in updates.entries && k !in todo then DeepUpdate(target, updates).entries[k]
                                else target.entries[k]
      decreases todo
    {
      var key :| key in todo;
      var value := updates.entries[key];
      if value.Dict? && key in entries && entries[key].Dict? {
        var inner := DeepUpdateInto(entries[key], value);
        entries := entries[key := inner];
      } else {
        entries := entries[key := value];
      }
      todo := todo - {key};
    }
    out := Dict(entries);
    assert out.entries == DeepUpdate(target, updates).entries;
  }

  lemma {:induction false} MergeIsDeepUpdate(cfg: Doc, defaults: Doc)
    requires cfg.Dict? && defaults.Dict?
    ensures Merge(cfg, defaults) == DeepUpdate(defaults, cfg)
    decreases defaults
  {
    var m, d := Merge(cfg, defaults).entries, DeepUpdate(defaults, cfg).entries;
    forall k | k in m ensures m[k] == d[k] {
      if k in cfg.entries && k in defaults.entries && cfg.entries[k].Dict? && defaults.entries[k].Dict? {
        MergeIsDeepUpdate(cfg.entries[k], defaults.entries[k]);
      }
    }
    assert m == d;
  }

  lemma {:induction false} MergeKeepsUserValues(cfg: Doc, defaults: Doc, path: Path)
    requires cfg.Dict? && defaults.Dict?
    requires Lookup(cfg, path).Some?
    ensures Lookup(Merge(cfg, defaults), path).Some?
    ensures !Lookup(cfg, path).value.Dict? ==> Lookup(Merge(cfg, defaults), path) == Lookup(cfg, path)
    ensures Lookup(cfg, path).value.Dict? ==> Lookup(Merge(cfg, defaults), path).value.Dict?
    decreases |path|
  {
    if path != [] {
      var k := path[0];
      if k in defaults.entries && defaults.entries[k].Dict? && cfg.entries[k].Dict? {
        MergeKeepsUserValues(cfg.entries[k], defaults.entries[k], path[1..]);
      }
    }
  }

  /** A merged document has a value wherever the defaults have one that no user leaf stands in front of. */
  lemma {:induction false} MergeFillsDefaults(cfg: Doc, defaults: Doc, path: Path)
    requires cfg.Dict? && defaults.Dict?
    requires Lookup(defaults, path).Some?
    requires forall i | 0 <= i <= |path| :: Lookup(cfg, path[..i]).Some? ==> Lookup(cfg, path[..i]).value.Dict?
    ensures Lookup(Merge(cfg, defaults), path).Some?
    ensures Lookup(cfg, path).None? ==> Lookup(Merge(cfg, defaults), path) == Lookup(defaults, path)
    decreases |path|
  {
    if path != [] {
      var k := path[0];
      if k in cfg.entries {
        var inner := cfg.entries[k];
        assert path[..1] == [k] && Lookup(cfg, path[..1]) == Lookup(inner, []);
        assert inner.Dict?;
        if defaults.entries[k].Dict? {
          forall i | 0 <= i <= |path[1..]| && Lookup(inner, path[1..][..i]).Some?
            ensures Lookup(inner, path[1..][..i]).value.Dict?
          {
            assert path[..i + 1][1..] == path[1..][..i];
            assert Lookup(cfg, path[..i + 1]) == Lookup(inner, path[1..][..i]);
          }
          MergeFillsDefaults(inner, defaults.entries[k], path[1..]);
        }
      }
    }
  }

  lemma {:induction false} MergeIdempotent(cfg: Doc, defaults: Doc)
    requires cfg.Dict? && defaults.Dict?
    ensures Merge(Merge(cfg, defaults), defaults) == Merge(cfg, defaults)
    decreases defaults
  {
    var once := Merge(cfg, defaults);
    var twice := Merge(once, defaults);
    forall k | k in once.entries ensures twice.entries[k] == once.entries[k] {
      if k in defaults.entries && defaults.entries[k].Dict? {
        if k in cfg.entries {
          if cfg.entries[k].Dict? {
            MergeIdempotent(cfg.entries[k], defaults.entries[k]);
          }
        } else {
          MergeSelf(defaults.entries[k]);
        }
      }
    }
    assert twice.entries == once.entries;
  }

  lemma {:induction false} MergeSelf(d: Doc)
    requires d.Dict?
    ensures Merge(d, d) == d
    decreases d
  {
    var m := Merge(d, d);
    forall k | k in d.entries ensures m.entries[k] == d.entries[k] {
      if d.entries[k].Dict? { MergeSelf(d.entries[k]); }
    }
    assert m.entries == d.entries;
  }

  const SCHEMA_VERSION := 4
  const VERSION_KEY := "schema_version"
  const CURRENT_VERSION := Leaf(Num(SCHEMA_VERSION))

  predicate IsDefaultConfig(defaults: Doc) {
    defaults.Dict? && VERSION_KEY in defaults.entries && defaults.entries[VERSION_KEY] == CURRENT_VERSION
  }

  function Migrate(cfg: Doc, defaults: Doc): (r: Doc)
    requires cfg.Dict? && IsDefaultConfig(defaults)
    ensures r.Dict?
  {
    var version := if VERSION_KEY in cfg.entries then cfg.entries[VERSION_KEY] else Leaf(Num(0));
    var merged := Merge(cfg, defaults);
    if version != CURRENT_VERSION then Dict(merged.entries[VERSION_KEY := CURRENT_VERSION]) else merged
  }

  /** Migration keeps every user leaf but the version stamp, which it brings up to date. */
  lemma {:induction false} MigrateKeepsUserLeaves(cfg: Doc, defaults: Doc, path: Path)
    requires cfg.Dict? && IsDefaultConfig(defaults)
    ensures Lookup(Migrate(cfg, defaults), [VERSION_KEY]) == Some(CURRENT_VERSION)
    ensures path != [] && path[0] != VERSION_KEY && Lookup(cfg, path).Some? && !Lookup(cfg, path).value.Dict? ==>
              Lookup(Migrate(cfg, defaults), path) == Lookup(cfg, path)
  {
    var out := Migrate(cfg, defaults);
    assert [VERSION_KEY][1..] == [];
    assert Lookup(out, [VERSION_KEY]) == Lookup(out.entries[VERSION_KEY], []);
    if path != [] && path[0] != VERSION_KEY && Lookup(cfg, path).Some? && !Lookup(cfg, path).value.Dict? {
      MergeKeepsUserValues(cfg, defaults, path);
      assert out.entries[path[0]] == Merge(cfg, defaults).entries[path[0]];
    }
  }

  /** Migrating a migrated document reports no change at all. */
  lemma {:induction false} MigrateTwiceDiffsEmpty(cfg: Doc, defaults: Doc)
    requires cfg.Dict? && IsDefaultConfig(defaults)
    ensures Migrate(Migrate(cfg, defaults), defaults) == Migrate(cfg, defaults)
    ensures Diff(Migrate(cfg, defaults), Migrate(Migrate(cfg, defaults), defaults), []) == []
  {
    var once := Migrate(cfg, defaults);
    var twice := Migrate(once, defaults);
    assert once.entries[VERSION_KEY] == CURRENT_VERSION;
    forall k | k in once.entries ensures Merge(once, defaults).entries[k] == once.entries[k] {
      if k != VERSION_KEY {
        MergeIdempotent(cfg, defaults);
        MergeAt(Merge(cfg, defaults), once, defaults, k);
      }
    }
    assert Merge(once, defaults).entries == once.entries;
    DiffEmptyIffEqual(once, twice, []);
  }

  lemma MergeAt(a: Doc, b: Doc, src: Doc, k: string)
    requires a.Dict? && b.Dict? && src.Dict?
    requires k in a.entries && k in b.entries && a.entries[k] == b.entries[k]
    ensures Merge(a, src).entries[k] == Merge(b, src).entries[k]
  {
  }
}
