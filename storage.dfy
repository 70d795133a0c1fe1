/**
 * What the four repositories share: a container is a sequence of records
 * whose ids are unique (each entity is configured with `HasKey(e => e.Id)`),
 * and the way `Add`, the found-record update and `Remove` change it.
 */
module Storage {

  import opened Wrappers
  import opened Queries

  /** What `SaveChanges` does with an added record: it commits, or the key is already taken. */
  datatype SaveOutcome = Saved | DuplicateKey

  /** No two records of `xs` share a key. */
  ghost predicate UniqueKeys<T, K>(xs: seq<T>, key: T -> K)
  {
    forall i, j :: 0 <= i < |xs| && 0 <= j < |xs| && key(xs[i]) == key(xs[j]) ==> i == j
  }

  /** The set of keys in use. */
  ghost function Keys<T, K>(xs: seq<T>, key: T -> K): set<K>
  {
    set x | x in xs :: key(x)
  }

  /** Appending a record whose key is not yet in use keeps the keys unique. */
  lemma AppendKeepsUnique<T, K>(xs: seq<T>, key: T -> K, y: T)
    requires UniqueKeys(xs, key)
    requires forall i :: 0 <= i < |xs| ==> key(xs[i]) != key(y)
    ensures UniqueKeys(xs + [y], key)
    ensures Keys(xs + [y], key) == Keys(xs, key) + {key(y)}
  {
    var ys := xs + [y];
    forall x | x in ys ensures x in xs || x == y { }
  }

  /** Replacing a record by one with the same key keeps the keys unique. */
  lemma ReplaceKeepsUnique<T, K>(xs: seq<T>, key: T -> K, i: nat, y: T)
    requires UniqueKeys(xs, key)
    requires i < |xs| && key(y) == key(xs[i])
    ensures UniqueKeys(xs[i := y], key)
    ensures Keys(xs[i := y], key) == Keys(xs, key)
  {
    var ys := xs[i := y];
    forall k | k in Keys(ys, key) ensures k in Keys(xs, key) {
      var x :| x in ys && key(x) == k;
      var j :| 0 <= j < |ys| && ys[j] == x;
      assert key(xs[j]) == k;
    }
    forall k | k in Keys(xs, key) ensures k in Keys(ys, key) {
      var x :| x in xs && key(x) == k;
      var j :| 0 <= j < |xs| && xs[j] == x;
      assert key(ys[j]) == k;
    }
  }

  /**
   * Removing the record at `i` removes exactly the records with its key (there
   * is only that one) and keeps every other record.
   */
  lemma RemoveKeepsOthers<T, K>(xs: seq<T>, key: T -> K, i: nat)
    requires UniqueKeys(xs, key)
    requires i < |xs|
    ensures UniqueKeys(xs[..i] + xs[i + 1..], key)
    ensures forall x :: x in xs[..i] + xs[i + 1..] <==> x in xs && key(x) != key(xs[i])
    ensures Keys(xs[..i] + xs[i + 1..], key) == Keys(xs, key) - {key(xs[i])}
  {
    var ys := xs[..i] + xs[i + 1..];
    assert forall j :: 0 <= j < |ys| ==> ys[j] == xs[if j < i then j else j + 1];
    forall x | x in ys ensures x in xs && key(x) != key(xs[i]) {
      var j :| 0 <= j < |ys| && ys[j] == x;
    }
    forall x | x in xs && key(x) != key(xs[i]) ensures x in ys {
      var j :| 0 <= j < |xs| && xs[j] == x;
      assert j != i;
      assert ys[if j < i then j else j - 1] == x;
    }
  }

  /** Records with unique keys are distinct: each occurs at most once. */
  lemma {:induction false} UniqueKeysOccurOnce<T, K>(xs: seq<T>, key: T -> K)
    requires UniqueKeys(xs, key)
    ensures forall x :: multiset(xs)[x] <= 1
  {
    if |xs| > 0 {
      var rest := xs[1..];
      assert xs == [xs[0]] + rest;
      assert UniqueKeys(rest, key) by {
        forall i, j | 0 <= i < |rest| && 0 <= j < |rest| && key(rest[i]) == key(rest[j]) ensures i == j {
          assert key(xs[i + 1]) == key(xs[j + 1]);
        }
      }
      UniqueKeysOccurOnce(rest, key);
      assert xs[0] !in rest by {
        forall j | 0 <= j < |rest| ensures rest[j] != xs[0] {
          assert xs[j + 1] == rest[j];
        }
      }
    }
  }

  /** With unique keys, looking a key up finds the one record that has it. */
  lemma FindUniqueKey<T(!new), K>(xs: seq<T>, key: T -> K, x: T)
    requires UniqueKeys(xs, key)
    requires x in xs
    ensures FindByKey(xs, key, key(x)) == Some(x)
  {
    var r := FindByKey(xs, key, key(x));
    var i := IndexOfKey(xs, key, key(x)).value;
    var j :| 0 <= j < |xs| && xs[j] == x;
    assert i == j;
  }

  /** A key filter over records with unique keys finds at most one record. */
  lemma {:induction false} WhereUniqueKeyAtMostOne<T(!new), K>(xs: seq<T>, key: T -> K, k: K)
    requires UniqueKeys(xs, key)
    ensures |WhereKey(xs, key, k)| <= 1
  {
    if |xs| > 0 {
      var rest := xs[1..];
      assert UniqueKeys(rest, key) by {
        forall i, j | 0 <= i < |rest| && 0 <= j < |rest| && key(rest[i]) == key(rest[j]) ensures i == j {
          assert key(xs[i + 1]) == key(xs[j + 1]);
        }
      }
      WhereUniqueKeyAtMostOne(rest, key, k);
      if key(xs[0]) == k {
        // No later record has the key, so the rest contributes nothing.
        forall j | 0 <= j < |rest| ensures key(rest[j]) != k {
          assert rest[j] == xs[j + 1];
        }
        assert WhereKey(rest, key, k) == [];
      }
    }
  }
}
