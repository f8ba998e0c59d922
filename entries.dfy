/**
 * The KeePass entries the script reads and the `all_entries` dictionary it
 * builds from them: recycled entries are skipped, each remaining entry is
 * stored under its display title, and a later entry overwrites an earlier
 * one with the same display title.
 */
module Entries {
  import opened Text

  /** One record of the decrypted database (`entry.title`, `entry.group.name`, `entry.password`). */
  datatype Entry = Entry(title: string, groupName: string, password: string)

  /** The marker at which a title is cut: the space and parenthesis of a suffix like " (work laptop)". */
  const Marker: string := " ("

  /** The group test that makes the loop `continue`. */
  predicate InRecycleBin(e: Entry) {
    StartsWith(e.groupName, "Recycle Bin")
  }

  /** The skipped groups are "Recycle Bin" and every name that extends it. */
  lemma RecycleBinGroups(e: Entry)
    ensures InRecycleBin(e) <==> exists rest :: e.groupName == "Recycle Bin" + rest
  {
    StartsWithConcat(e.groupName, "Recycle Bin");
  }

  /**
   * The title cut just before the first " (", or the whole title when there is none.
   */
  function DisplayTitle(title: string): (r: string)
    ensures StartsWith(title, r)
    ensures !Contains(r, Marker)
    ensures r == title || StartsWith(title[|r|..], Marker)
  {
    var pos := Find(title, Marker);
    var r := title[..if pos == -1 then |title| else pos];
    forall k | OccursAt(r, Marker, k) ensures false {
      OccursInPrefix(title, |r|, Marker, k);
    }
    assert pos != -1 ==> title[pos..pos + 2] == title[|r|..][..2];
    r
  }

  /**
   * The three properties of DisplayTitle determine it: any prefix of the
   * title that holds no " (" and is followed by " (" or by nothing is it.
   */
  lemma DisplayTitleUnique(title: string, p: string)
    requires StartsWith(title, p) && !Contains(p, Marker)
    requires p == title || StartsWith(title[|p|..], Marker)
    ensures p == DisplayTitle(title)
  {
    var d := DisplayTitle(title);
    var pos := Find(title, Marker);
    if p != title {
      assert title[|p|..|p| + 2] == title[|p|..][..2];
      assert title[|p|] == title[|p|..][..2][0];
    }
    if d != title {
      assert title[|d|..|d| + 2] == title[|d|..][..2];
      assert title[|d| + 1] == title[|d|..][..2][1];
    }
    assert pos == -1 ==> d == title;
    assert pos != -1 ==> |d| == pos;
    assert p != title ==> OccursAt(title, Marker, |p|);
    if |d| + 2 <= |p| {
      assert p[|d|..|d| + 2] == title[|d|..|d| + 2];
      assert d != title ==> OccursAt(p, Marker, |d|);
    }
    if |p| < |d| {
      assert false;
    } else if |d| < |p| {
      assert false;
    }
    assert p == title[..|p|] == title[..|d|] == d;
  }

  /** A parenthetical suffix is dropped. */
  lemma DisplayTitleExample()
    ensures DisplayTitle("Personal (work laptop)") == "Personal"
  {
    var title := "Personal (work laptop)";
    assert title[..8] == "Personal";
    assert title[8..][..2] == Marker;
    forall k | OccursAt("Personal", Marker, k) ensures "Personal"[k] == ' ' {
      assert "Personal"[k..k + 2][0] == "Personal"[k];
    }
    DisplayTitleUnique(title, "Personal");
  }

  /** Entry `es[i]` is stored under key `k` when the loop reaches it. */
  predicate Selects(es: seq<Entry>, i: int, k: string) {
    0 <= i < |es| && !InRecycleBin(es[i]) && DisplayTitle(es[i].title) == k
  }

  /** ... and no later entry is stored under `k`. */
  predicate LastSelects(es: seq<Entry>, i: int, k: string) {
    Selects(es, i, k) && forall j :: i < j < |es| ==> !Selects(es, j, k)
  }

  /** The contents of `all_entries` after the loop has visited `es`. */
  function Table(es: seq<Entry>): map<string, Entry>
    decreases |es|
  {
    if es == [] then map[]
    else
      var m := Table(es[..|es| - 1]);
      var e := es[|es| - 1];
      if InRecycleBin(e) then m else m[DisplayTitle(e.title) := e]
  }

  /** The insertion order of the keys of `all_entries` after the loop has visited `es`. */
  function KeyOrder(es: seq<Entry>): seq<string>
    decreases |es|
  {
    if es == [] then []
    else
      var pre := es[..|es| - 1];
      var e := es[|es| - 1];
      if InRecycleBin(e) || DisplayTitle(e.title) in Table(pre) then KeyOrder(pre)
      else KeyOrder(pre) + [DisplayTitle(e.title)]
  }

  /** A key is present exactly when some non-recycled entry has it as display title. */
  lemma TableKeys(es: seq<Entry>, k: string)
    ensures k in Table(es) <==> exists i :: Selects(es, i, k)
  {
    if k in Table(es) {
      TableValues(es, k);
      var i :| 0 <= i < |es| && es[i] == Table(es)[k];
      assert Selects(es, i, k);
    }
    if i :| Selects(es, i, k) {
      TableKeysComplete(es, i, k);
    }
  }

  lemma {:induction false} TableKeysComplete(es: seq<Entry>, i: int, k: string)
    requires Selects(es, i, k)
    ensures k in Table(es)
    decreases |es|
  {
    var n := |es| - 1;
    var pre := es[..n];
    if i < n && !Selects(es, n, k) {
      assert pre[i] == es[i];
      TableKeysComplete(pre, i, k);
    }
  }

  /** Last write wins: the value under `k` is the last non-recycled entry whose display title is `k`. */
  lemma {:induction false} TableLastWriteWins(es: seq<Entry>, i: int, k: string)
    requires LastSelects(es, i, k)
    ensures k in Table(es) && Table(es)[k] == es[i]
    decreases |es|
  {
    var n := |es| - 1;
    var pre := es[..n];
    if i < n {
      assert !Selects(es, n, k);
      forall j | i < j < n ensures !Selects(pre, j, k) {
        assert pre[j] == es[j];
        assert !Selects(es, j, k);
      }
      assert pre[i] == es[i];
      TableLastWriteWins(pre, i, k);
    }
  }

  /** Every stored value is a non-recycled entry of the database whose display title is its key. */
  lemma {:induction false} TableValues(es: seq<Entry>, k: string)
    requires k in Table(es)
    ensures !InRecycleBin(Table(es)[k])
    ensures DisplayTitle(Table(es)[k].title) == k
    ensures Table(es)[k] in es
    decreases |es|
  {
    var n := |es| - 1;
    var pre := es[..n];
    if InRecycleBin(es[n]) || DisplayTitle(es[n].title) != k {
      TableValues(pre, k);
    }
  }

  /** The insertion order lists every key of the table once. */
  lemma {:induction false} KeyOrderIsKeys(es: seq<Entry>)
    ensures Distinct(KeyOrder(es))
    ensures forall k :: k in KeyOrder(es) <==> k in Table(es)
    decreases |es|
  {
    if es != [] {
      KeyOrderIsKeys(es[..|es| - 1]);
    }
  }

  /**
   * The loop of `main` that fills `all_entries`: the dictionary is the pair
   * of its keys in insertion order and its mapping.
   */
  method BuildEntries(es: seq<Entry>) returns (keys: seq<string>, table: map<string, Entry>)
    ensures table == Table(es) && keys == KeyOrder(es)
    ensures Distinct(keys) && forall k :: k in keys <==> k in table
    ensures forall k :: k in table ==> !InRecycleBin(table[k]) && DisplayTitle(table[k].title) == k
  {
    keys, table := [], map[];
    for i := 0 to |es|
      invariant table == Table(es[..i]) && keys == KeyOrder(es[..i])
    {
      assert es[..i + 1][..i] == es[..i];
      var entry := es[i];
      if InRecycleBin(entry) {
        continue;
      }
      var title := DisplayTitle(entry.title);
      if title !in table {
        keys := keys + [title];
      }
      table := table[title := entry];
    }
    assert es[..|es|] == es;
    KeyOrderIsKeys(es);
    forall k | k in table ensures !InRecycleBin(table[k]) && DisplayTitle(table[k].title) == k {
      TableValues(es, k);
    }
  }
}
