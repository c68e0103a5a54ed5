/**
 * Whether the rows of an audit diff, with the old document, determine the new one. A removed key and a key set to
 * null give the same row, so they do not always; here is exactly when they do.
 */
module DocumentReplay {
  import opened Texts
  import opened Documents

  /** No key with a value other than null is removed or set to null, wherever both documents have dictionaries. */
  predicate KeepsNonNull(was: Doc, now: Doc)
    decreases was
  {
    was.Dict? && now.Dict? ==>
      forall k | k in was.entries && was.entries[k] != NULL ::
        k in now.entries && now.entries[k] != NULL && KeepsNonNull(was.entries[k], now.entries[k])
  }

  /** Only the new document gives these rows. */
  ghost predicate RowsDetermine(was: Doc, now: Doc, path: Path) {
    forall other | Diff(was, other, path) == Diff(was, now, path) :: other == now
  }

  // --------------------------------------------------------- the rows of one key

  /** The rows that have the key at a depth of their paths. */
  function RowsAt(rows: seq<Change>, depth: nat, k: string): seq<Change> {
    if rows == [] then []
    else
      (if |rows[0].path| > depth && rows[0].path[depth] == k then [rows[0]] else []) + RowsAt(rows[1..], depth, k)
  }

  lemma {:induction false} RowsAtAppend(a: seq<Change>, b: seq<Change>, depth: nat, k: string)
    ensures RowsAt(a + b, depth, k) == RowsAt(a, depth, k) + RowsAt(b, depth, k)
    decreases |a|
  {
    if a == [] {
      assert a + b == b;
    } else {
      assert (a + b)[1..] == a[1..] + b;
      RowsAtAppend(a[1..], b, depth, k);
    }
  }

  predicate AllAt(rows: seq<Change>, depth: nat, k: string) {
    forall i | 0 <= i < |rows| :: |rows[i].path| > depth && rows[i].path[depth] == k
  }

  lemma {:induction false} RowsAtAllOrNone(rows: seq<Change>, depth: nat, k: string, l: string)
    requires AllAt(rows, depth, k)
    ensures RowsAt(rows, depth, l) == if k == l then rows else []
    decreases |rows|
  {
    if rows != [] {
      RowsAtAllOrNone(rows[1..], depth, k, l);
      assert rows == [rows[0]] + rows[1..];
    }
  }

  /** The rows for a key, none when neither document has it. */
  function KeyRows(k: string, was: Doc, now: Doc, path: Path): seq<Change>
    requires was.Dict? && now.Dict?
  {
    if k in was.entries || k in now.entries then DiffKey(k, was, now, path) else []
  }

  lemma KeyRowsStart(k: string, was: Doc, now: Doc, path: Path)
    requires was.Dict? && now.Dict? && (k in was.entries || k in now.entries)
    ensures AllAt(DiffKey(k, was, now, path), |path|, k)
  {
    if k in was.entries && k in now.entries {
      DiffPrefixFree(was.entries[k], now.entries[k], path + [k]);
    }
    var rows := DiffKey(k, was, now, path);
    forall i | 0 <= i < |rows| ensures |rows[i].path| > |path| && rows[i].path[|path|] == k {
      assert path + [k] <= rows[i].path;
      assert rows[i].path[|path|] == (path + [k])[|path|];
    }
  }

  lemma {:induction false} KeysRowsAt(keys: seq<string>, was: Doc, now: Doc, path: Path, k: string)
    requires was.Dict? && now.Dict? && Distinct(keys)
    requires forall x | x in keys :: x in was.entries || x in now.entries
    ensures RowsAt(DiffKeys(keys, was, now, path), |path|, k) == if k in keys then KeyRows(k, was, now, path) else []
    decreases |keys|
  {
    if keys != [] {
      var head, tail := DiffKey(keys[0], was, now, path), DiffKeys(keys[1..], was, now, path);
      FirstIsApart(keys);
      KeyRowsStart(keys[0], was, now, path);
      RowsAtAllOrNone(head, |path|, keys[0], k);
      KeysRowsAt(keys[1..], was, now, path, k);
      RowsAtAppend(head, tail, |path|, k);
    }
  }

  /** The rows for a key can be read off the rows of the diff. */
  lemma DiffRowsAt(was: Doc, now: Doc, path: Path, k: string)
    requires was.Dict? && now.Dict?
    ensures RowsAt(Diff(was, now, path), |path|, k) == KeyRows(k, was, now, path)
  {
    var keys := SortedKeys(was.entries.Keys + now.entries.Keys);
    KeysRowsAt(keys, was, now, path, k);
    assert k in keys <==> k in was.entries || k in now.entries;
  }

  // ----------------------------------------------------- kept keys determine

  /** A diff is a single row for its whole path exactly when the documents differ and are not both dictionaries. */
  lemma SingleRowIff(was: Doc, now: Doc, path: Path, at: Doc)
    ensures Diff(was, now, path) == [Change(path, was, at)] <==>
            !(was.Dict? && now.Dict?) && was != now && at == now
  {
    if was.Dict? && now.Dict? {
      DictRowsAreBelow(was, now, path);
      assert Change(path, was, at) in [Change(path, was, at)];
    }
  }

  /** What a key's rows say: exactly what the new document has there, or that it has nothing. */
  lemma KeyRowsTell(k: string, was: Doc, now: Doc, other: Doc, path: Path)
    requires was.Dict? && now.Dict? && other.Dict?
    requires KeyRows(k, was, other, path) == KeyRows(k, was, now, path)
    requires k in was.entries && was.entries[k] != NULL ==> k in now.entries && now.entries[k] != NULL
    ensures k in other.entries <==> k in now.entries
    ensures k in other.entries && k !in was.entries ==> other.entries[k] == now.entries[k]
    ensures k in other.entries && k in was.entries ==>
              Diff(was.entries[k], other.entries[k], path + [k]) == Diff(was.entries[k], now.entries[k], path + [k])
  {
    var at := path + [k];
    if k in was.entries {
      var v := was.entries[k];
      if k in now.entries && k !in other.entries {
        SingleRowIff(v, now.entries[k], at, NULL);
      }
      if k in other.entries && k !in now.entries {
        SingleRowIff(v, other.entries[k], at, NULL);
      }
    }
  }

  lemma {:induction false} KeptKeysDetermine(was: Doc, now: Doc, other: Doc, path: Path)
    requires KeepsNonNull(was, now) && Diff(was, other, path) == Diff(was, now, path)
    ensures other == now
    decreases was
  {
    if was.Dict? && now.Dict? && other.Dict? {
      forall k
        ensures k in other.entries <==> k in now.entries
        ensures k in other.entries ==> other.entries[k] == now.entries[k]
      {
        DiffRowsAt(was, now, path, k);
        DiffRowsAt(was, other, path, k);
        KeyRowsTell(k, was, now, other, path);
        if k in was.entries && k in now.entries {
          KeptKeysDetermine(was.entries[k], now.entries[k], other.entries[k], path + [k]);
        }
      }
      assert other.entries == now.entries;
    } else {
      DiffEmptyIffEqual(was, now, path);
      DiffEmptyIffEqual(was, other, path);
      SingleRowIff(was, now, path, now);
      SingleRowIff(was, now, path, other);
      SingleRowIff(was, other, path, now);
      SingleRowIff(was, other, path, other);
    }
  }

  // ------------------------------------------------------ lost keys do not

  lemma {:induction false} SameKeyRows(keys: seq<string>, was: Doc, now: Doc, other: Doc, path: Path)
    requires was.Dict? && now.Dict? && other.Dict?
    requires forall x | x in keys :: x in was.entries || (x in now.entries && x in other.entries)
    requires forall x | x in keys :: DiffKey(x, was, other, path) == DiffKey(x, was, now, path)
    ensures DiffKeys(keys, was, other, path) == DiffKeys(keys, was, now, path)
    decreases |keys|
  {
    if keys != [] {
      SameKeyRows(keys[1..], was, now, other, path);
    }
  }

  lemma SameKeyRow(was: Doc, now: Doc, other: Doc, path: Path, x: string)
    requires was.Dict? && now.Dict? && other.Dict? && (x in was.entries || x in now.entries)
    requires x in other.entries <==> x in now.entries
    requires x in now.entries ==> other.entries[x] == now.entries[x]
    ensures DiffKey(x, was, other, path) == DiffKey(x, was, now, path)
  {
  }

  /** The same but at one key of the old document, and of the same rows there: the same rows. */
  lemma SameButAtOneKey(was: Doc, now: Doc, other: Doc, path: Path, k: string)
    requires was.Dict? && now.Dict? && other.Dict? && k in was.entries
    requires forall x | x != k :: (x in other.entries <==> x in now.entries)
    requires forall x | x != k && x in now.entries :: other.entries[x] == now.entries[x]
    requires DiffKey(k, was, other, path) == DiffKey(k, was, now, path)
    ensures Diff(was, other, path) == Diff(was, now, path)
  {
    var keys := was.entries.Keys + now.entries.Keys;
    assert was.entries.Keys + other.entries.Keys == keys;
    forall x | x in keys ensures DiffKey(x, was, other, path) == DiffKey(x, was, now, path) {
      if x != k {
        SameKeyRow(was, now, other, path, x);
      }
    }
    SameKeyRows(SortedKeys(keys), was, now, other, path);
  }

  /** Where a key was lost there is another document with the same rows. */
  lemma {:induction false} LostKeyHasTwin(was: Doc, now: Doc, path: Path) returns (other: Doc)
    requires !KeepsNonNull(was, now)
    ensures other != now && Diff(was, other, path) == Diff(was, now, path)
    decreases was
  {
    var k :| k in was.entries && was.entries[k] != NULL
             && !(k in now.entries && now.entries[k] != NULL && KeepsNonNull(was.entries[k], now.entries[k]));
    var at := path + [k];
    if k !in now.entries {
      other := Dict(now.entries[k := NULL]);
    } else if now.entries[k] == NULL {
      other := Dict(now.entries - {k});
    } else {
      var inner := LostKeyHasTwin(was.entries[k], now.entries[k], at);
      other := Dict(now.entries[k := inner]);
      assert other.entries[k] != now.entries[k];
    }
    assert other.entries != now.entries;
    SameButAtOneKey(was, now, other, path, k);
  }

  /**
   * The rows and the old document determine the new one if and only if no key with a value other than null was
   * removed or set to null.
   */
  lemma RowsDetermineIff(was: Doc, now: Doc, path: Path)
    ensures RowsDetermine(was, now, path) <==> KeepsNonNull(was, now)
  {
    if KeepsNonNull(was, now) {
      forall other | Diff(was, other, path) == Diff(was, now, path) ensures other == now {
        KeptKeysDetermine(was, now, other, path);
      }
    } else {
      var other := LostKeyHasTwin(was, now, path);
      assert !(Diff(was, other, path) == Diff(was, now, path) ==> other == now);
    }
  }

  /** They do not when the only key of a document goes: removed and set to null give the same rows. */
  lemma RemovedAndNullLookAlike(key: string, value: Doc, path: Path)
    requires value != NULL
    ensures var was := Dict(map[key := value]);
            var removed, nulled := Dict(map[]), Dict(map[key := NULL]);
            && removed != nulled && Diff(was, removed, path) == Diff(was, nulled, path)
            && !RowsDetermine(was, removed, path) && !RowsDetermine(was, nulled, path)
  {
    var was := Dict(map[key := value]);
    var removed, nulled := Dict(map[]), Dict(map[key := NULL]);
    assert key in nulled.entries && key !in removed.entries;
    SameButAtOneKey(was, removed, nulled, path, key);
  }
}
