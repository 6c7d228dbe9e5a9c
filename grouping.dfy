/** GROUP BY key with max(time): folds a sequence of (key, time) entries into
    one group per key, in order of first appearance, holding the latest time
    seen for that key. */
module Grouping {
  import opened Common

  datatype Group<K> = Group(key: K, last: int)

  function Max(a: int, b: int): int
  {
    if a < b then b else a
  }

  ghost predicate UniqueKeys<K>(gs: seq<Group<K>>)
  {
    forall i, j :: 0 <= i < j < |gs| ==> gs[i].key != gs[j].key
  }

  /** The time recorded for key `k`, if it has a group. */
  function Find<K(==)>(gs: seq<Group<K>>, k: K): Option<int>
  {
    if gs == [] then None
    else if gs[0].key == k then Some(gs[0].last)
    else Find(gs[1..], k)
  }

  /** `v` is the largest time among the entries for key `k`. */
  ghost predicate IsMaxFor<K>(entries: seq<(K, int)>, k: K, v: int)
  {
    && (exists i :: 0 <= i < |entries| && entries[i] == (k, v))
    && (forall i :: 0 <= i < |entries| && entries[i].0 == k ==> entries[i].1 <= v)
  }

  ghost predicate HasKey<K>(entries: seq<(K, int)>, k: K)
  {
    exists i :: 0 <= i < |entries| && entries[i].0 == k
  }

  /** Folds one entry into the groups: raises the time of its key's group, or
      appends a new group for a key not seen yet. */
  function AddEntry<K(==)>(gs: seq<Group<K>>, k: K, t: int): (r: seq<Group<K>>)
    ensures |r| == |gs| || |r| == |gs| + 1
  {
    if gs == [] then [Group(k, t)]
    else if gs[0].key == k then [Group(k, Max(gs[0].last, t))] + gs[1..]
    else [gs[0]] + AddEntry(gs[1..], k, t)
  }

  function GroupMax<K(==)>(entries: seq<(K, int)>): seq<Group<K>>
  {
    if entries == [] then []
    else
      var e := entries[|entries| - 1];
      AddEntry(GroupMax(entries[..|entries| - 1]), e.0, e.1)
  }

  lemma {:induction false} FindSome<K>(gs: seq<Group<K>>, k: K)
    ensures Find(gs, k).Some? <==> exists g :: g in gs && g.key == k
  {
    if gs != [] {
      FindSome(gs[1..], k);
      if gs[0].key != k {
        forall g | g in gs && g.key == k ensures g in gs[1..] {
          assert gs == [gs[0]] + gs[1..];
        }
      }
    }
  }

  lemma {:induction false} FindMember<K>(gs: seq<Group<K>>, g: Group<K>)
    requires UniqueKeys(gs) && g in gs
    ensures Find(gs, g.key) == Some(g.last)
  {
    if gs[0] != g {
      assert g in gs[1..];
      var j :| 0 <= j < |gs[1..]| && gs[1..][j] == g;
      assert gs[0].key != gs[j + 1].key;
      FindMember(gs[1..], g);
    }
  }

  lemma {:induction false} AddEntryFind<K>(gs: seq<Group<K>>, k: K, t: int, k': K)
    ensures Find(AddEntry(gs, k, t), k')
         == if k' != k then Find(gs, k')
            else if Find(gs, k).Some? then Some(Max(Find(gs, k).value, t))
            else Some(t)
  {
    if gs != [] && gs[0].key != k {
      AddEntryFind(gs[1..], k, t, k');
    }
  }

  lemma {:induction false} AddEntryUnique<K>(gs: seq<Group<K>>, k: K, t: int)
    requires UniqueKeys(gs)
    ensures UniqueKeys(AddEntry(gs, k, t))
  {
    if gs != [] && gs[0].key != k {
      var rest := AddEntry(gs[1..], k, t);
      AddEntryUnique(gs[1..], k, t);
      var r := AddEntry(gs, k, t);
      assert r == [gs[0]] + rest;
      forall j | 0 < j < |r| ensures r[0].key != r[j].key {
        var g := rest[j - 1];
        assert g in rest;
        FindSome(rest, gs[0].key);
        AddEntryFind(gs[1..], k, t, gs[0].key);
        FindSome(gs[1..], gs[0].key);
      }
    }
  }

  /** GROUP BY with max: keys are unique, a key has a group exactly when some
      entry carries it, and the group's time is the maximum of that key's
      entries. */
  lemma {:induction false} GroupMaxCorrect<K>(entries: seq<(K, int)>, k: K)
    ensures UniqueKeys(GroupMax(entries))
    ensures Find(GroupMax(entries), k).Some? <==> HasKey(entries, k)
    ensures Find(GroupMax(entries), k).Some? ==> IsMaxFor(entries, k, Find(GroupMax(entries), k).value)
  {
    if entries != [] {
      var n := |entries| - 1;
      var init, e := entries[..n], entries[n];
      var gs := GroupMax(init);
      GroupMaxCorrect(init, k);
      GroupMaxCorrect(init, e.0);
      AddEntryUnique(gs, e.0, e.1);
      AddEntryFind(gs, e.0, e.1, k);
      assert entries == init + [e];
      if HasKey(init, k) {
        var i :| 0 <= i < |init| && init[i].0 == k;
        assert entries[i].0 == k;
      }
      if HasKey(entries, k) && k != e.0 {
        var i :| 0 <= i < |entries| && entries[i].0 == k;
        assert init[i].0 == k;
      }
      var f := Find(GroupMax(entries), k);
      if f.Some? {
        var v := f.value;
        if k == e.0 && Find(gs, k).Some? && v != e.1 {
          var j :| 0 <= j < |init| && init[j] == (k, Find(gs, k).value);
          assert entries[j] == (k, v);
        } else if k != e.0 {
          var j :| 0 <= j < |init| && init[j] == (k, v);
          assert entries[j] == (k, v);
        } else {
          assert entries[n] == (k, v);
        }
        forall i | 0 <= i < |entries| && entries[i].0 == k ensures entries[i].1 <= v {
          if i < n {
            assert init[i] == entries[i];
          }
        }
      }
    }
  }
}
