/**
 * Configuration trees as LoadConfig.js sees them once TOML.parse has run,
 * and the deep merge `updateConfig` performs on them, as a pure function.
 * The loop that performs the merge in place is LoadConfig.UpdateConfig.
 */
module ConfigTree {

  datatype Option<T> = None | Some(value: T)

  /** A parsed TOML value. A TOML offset date-time becomes a JavaScript
      `Date`: an object that is not an array and has no enumerable keys of
      its own. Local dates, times and date-times are modelled the same way,
      although the parser gives each of them one key of its own. */
  datatype Value =
    | Bool(b: bool)
    | Num(n: int)
    | Str(s: string)
    | DateTime(stamp: string)
    | Arr(items: seq<Value>)
    | Table(entries: map<string, Value>)

  /** A table's entries: the top level of a configuration file. */
  type Tree = map<string, Value>

  /** JavaScript truthiness: `false`, `0` and `""` are falsy; every object,
      an empty array or table included, is truthy. */
  predicate Truthy(v: Value) {
    match v
    case Bool(b) => b
    case Num(n) => n != 0
    case Str(s) => s != ""
    case _ => true
  }

  /** `typeof v === 'object' && !(v instanceof Array)`: the values the merge
      descends into rather than copies. */
  predicate IsObject(v: Value) {
    v.Table? || v.DateTime?
  }

  /** What the nested merge at key `k` starts from: `g[k]` when it is truthy,
      otherwise a fresh empty table put there first. */
  function Slot(g: Tree, k: string): (v: Value)
    ensures Truthy(v)
    ensures k in g && Truthy(g[k]) ==> v == g[k]
    ensures (k !in g || !Truthy(g[k])) ==> v == Table(map[])
  {
    if k in g && Truthy(g[k]) then g[k] else Table(map[])
  }

  /** The pairs of trees on which the merge is defined: wherever `l` holds a
      non-empty table, the default there is absent, falsy or a table,
      recursively. (A truthy scalar, an array or a date under a non-empty
      local table would have keys written onto it.) */
  predicate Mergeable(g: Tree, l: Tree)
    decreases Table(l)
  {
    forall k :: k in l && l[k].Table? ==>
      if Slot(g, k).Table? then Mergeable(Slot(g, k).entries, l[k].entries)
      else l[k].entries == map[]
  }

  /** The tree `updateConfig(g, l)` leaves in `g`: local scalars and arrays
      replace the default outright, local tables are merged key by key into
      the default table (a fresh one when the default is absent or falsy),
      and a local date, having no keys, leaves that slot as it found it. */
  function Merge(g: Tree, l: Tree): Tree
    requires Mergeable(g, l)
    decreases Table(l)
  {
    map k | k in g.Keys + l.Keys ::
      if k !in l then g[k]
      else if !IsObject(l[k]) then l[k]
      else if Slot(g, k).Table? && l[k].Table? then Table(Merge(Slot(g, k).entries, l[k].entries))
      else Slot(g, k)
  }

  /** The shape of a merge: the keys of both trees, the default wherever
      the local tree is silent, local scalars and arrays as they are, and
      the nested merge where both sides hold tables. */
  lemma MergeShape(g: Tree, l: Tree)
    requires Mergeable(g, l)
    ensures Merge(g, l).Keys == g.Keys + l.Keys
    ensures forall k :: k in g && k !in l ==> Merge(g, l)[k] == g[k]
    ensures forall k :: k in l && !IsObject(l[k]) ==> Merge(g, l)[k] == l[k]
    ensures forall k :: k in l && l[k].Table? && k in g && g[k].Table? ==>
              Merge(g, l)[k] == Table(Merge(g[k].entries, l[k].entries))
  {
    MergeKeys(g, l);
  }

  /** The merged value at a key the local tree sets. */
  lemma MergeAt(g: Tree, l: Tree, k: string)
    requires Mergeable(g, l) && k in l
    ensures k in Merge(g, l)
    ensures Merge(g, l)[k] ==
              if !IsObject(l[k]) then l[k]
              else if Slot(g, k).Table? && l[k].Table? then Table(Merge(Slot(g, k).entries, l[k].entries))
              else Slot(g, k)
  {
  }

  /** Everything `l` sets can be read back from `r`: its scalars and arrays
      at the same paths, and the contents of its non-empty tables. */
  predicate Covers(r: Tree, l: Tree)
    decreases Table(l)
  {
    forall k :: k in l ==>
      k in r &&
      if l[k].Table? then l[k].entries == map[] || (r[k].Table? && Covers(r[k].entries, l[k].entries))
      else l[k].DateTime? || r[k] == l[k]
  }

  /** No key path is set by both trees: where both have a key, both hold
      tables, whose key paths are disjoint in turn. */
  predicate Disjoint(p: Tree, q: Tree)
    decreases Table(p)
  {
    forall k :: k in p && k in q ==>
      p[k].Table? && q[k].Table? && Disjoint(p[k].entries, q[k].entries)
  }

  /** No date-time anywhere along the tables of `l`. */
  predicate DateFree(l: Tree)
    decreases Table(l)
  {
    forall k :: k in l ==> !l[k].DateTime? && (l[k].Table? ==> DateFree(l[k].entries))
  }

  /** Any local tree can be merged onto an empty default. */
  lemma {:induction false} EmptyMergeable(l: Tree)
    ensures Mergeable(map[], l)
    decreases Table(l)
  {
    forall k | k in l && l[k].Table?
      ensures Mergeable(Slot(map[], k).entries, l[k].entries)
    {
      EmptyMergeable(l[k].entries);
    }
  }

  /** Merging a date-free tree onto an empty one copies it unchanged. */
  lemma {:induction false} MergeOntoEmpty(l: Tree)
    requires DateFree(l)
    ensures Mergeable(map[], l) && Merge(map[], l) == l
    decreases Table(l)
  {
    EmptyMergeable(l);
    var r := Merge(map[], l);
    forall k | k in l ensures r[k] == l[k] {
      if l[k].Table? {
        MergeOntoEmpty(l[k].entries);
      }
    }
  }

  /** When the local value at `k` is a table and the default there is absent
      or falsy, the merged value at `k` is the local subtree itself. */
  lemma FreshSubtreeIsCopied(g: Tree, l: Tree, k: string)
    requires Mergeable(g, l) && k in l && l[k].Table? && DateFree(l[k].entries)
    requires k !in g || !Truthy(g[k])
    ensures Merge(g, l)[k] == l[k]
  {
    MergeOntoEmpty(l[k].entries);
  }

  /** After a merge, everything the local tree sets is in the result. */
  lemma {:induction false} MergeCovers(g: Tree, l: Tree)
    requires Mergeable(g, l)
    ensures Covers(Merge(g, l), l)
    decreases Table(l)
  {
    var r := Merge(g, l);
    forall k | k in l && l[k].Table? && l[k].entries != map[]
      ensures r[k].Table? && Covers(r[k].entries, l[k].entries)
    {
      MergeCovers(Slot(g, k).entries, l[k].entries);
    }
  }

  lemma {:induction false} CoversTransitive(a: Tree, b: Tree, c: Tree)
    requires Covers(a, b) && Covers(b, c)
    ensures Covers(a, c)
    decreases Table(c)
  {
    forall k | k in c && c[k].Table? && c[k].entries != map[]
      ensures a[k].Table? && Covers(a[k].entries, c[k].entries)
    {
      var key :| key in c[k].entries;
      assert key in b[k].entries;
      CoversTransitive(a[k].entries, b[k].entries, c[k].entries);
    }
  }

  /** Merging the same local tree twice leaves what merging it once left. */
  lemma {:induction false} MergeIdempotent(g: Tree, l: Tree)
    requires Mergeable(g, l)
    ensures Mergeable(Merge(g, l), l)
    ensures Merge(Merge(g, l), l) == Merge(g, l)
    decreases Table(l)
  {
    var r := Merge(g, l);
    forall k | k in l && l[k].Table? && Slot(g, k).Table?
      ensures Mergeable(Merge(Slot(g, k).entries, l[k].entries), l[k].entries)
      ensures Merge(Merge(Slot(g, k).entries, l[k].entries), l[k].entries)
           == Merge(Slot(g, k).entries, l[k].entries)
    {
      MergeIdempotent(Slot(g, k).entries, l[k].entries);
    }
    assert Mergeable(r, l);
    var r2 := Merge(r, l);
    forall k | k in r ensures r2[k] == r[k] {
      if k in l && IsObject(l[k]) {
        assert Slot(r, k) == r[k];
      }
    }
  }

  lemma {:induction false} DisjointSymmetric(p: Tree, q: Tree)
    requires Disjoint(p, q)
    ensures Disjoint(q, p)
    decreases Table(p)
  {
    forall k | k in q && k in p
      ensures Disjoint(q[k].entries, p[k].entries)
    {
      DisjointSymmetric(p[k].entries, q[k].entries);
    }
  }

  /** A patch stays mergeable after a patch whose key paths are disjoint
      from it has been merged first. */
  lemma {:induction false} MergeableAfterDisjoint(g: Tree, p: Tree, q: Tree)
    requires Mergeable(g, p) && Mergeable(g, q) && Disjoint(p, q)
    ensures Mergeable(Merge(g, p), q)
    decreases Table(q)
  {
    var r := Merge(g, p);
    forall k | k in q && q[k].Table? && Slot(r, k).Table?
      ensures Mergeable(Slot(r, k).entries, q[k].entries)
    {
      if k in p && Slot(g, k).Table? {
        MergeableAfterDisjoint(Slot(g, k).entries, p[k].entries, q[k].entries);
      }
    }
  }

  /** Two patches with disjoint key paths can be merged in either order. */
  lemma {:induction false} MergeCommutesOnDisjoint(g: Tree, p: Tree, q: Tree)
    requires Mergeable(g, p) && Mergeable(g, q) && Disjoint(p, q)
    ensures Mergeable(Merge(g, p), q) && Mergeable(Merge(g, q), p)
    ensures Merge(Merge(g, p), q) == Merge(Merge(g, q), p)
    decreases Table(p), 2
  {
    DisjointSymmetric(p, q);
    MergeableAfterDisjoint(g, p, q);
    MergeableAfterDisjoint(g, q, p);
    BothOrdersAgree(g, p, q);
  }

  lemma {:induction false} BothOrdersAgree(g: Tree, p: Tree, q: Tree)
    requires Mergeable(g, p) && Mergeable(g, q) && Disjoint(p, q)
    requires Mergeable(Merge(g, p), q) && Mergeable(Merge(g, q), p)
    ensures Merge(Merge(g, p), q) == Merge(Merge(g, q), p)
    decreases Table(p), 1
  {
    var gp, gq := Merge(g, p), Merge(g, q);
    var a, b := Merge(gp, q), Merge(gq, p);
    MergeKeys(g, p);
    MergeKeys(g, q);
    MergeKeys(gp, q);
    MergeKeys(gq, p);
    assert a.Keys == b.Keys;
    forall k | k in a ensures a[k] == b[k] {
      CommutesAt(g, p, q, k);
    }
  }

  lemma MergeKeys(g: Tree, l: Tree)
    requires Mergeable(g, l)
    ensures Merge(g, l).Keys == g.Keys + l.Keys
  {
  }

  /** One key of the two merge orders. */
  lemma {:induction false} CommutesAt(g: Tree, p: Tree, q: Tree, k: string)
    requires Mergeable(g, p) && Mergeable(g, q) && Disjoint(p, q)
    requires Mergeable(Merge(g, p), q) && Mergeable(Merge(g, q), p)
    requires k in g || k in p || k in q
    ensures k in Merge(Merge(g, p), q) && k in Merge(Merge(g, q), p)
    ensures Merge(Merge(g, p), q)[k] == Merge(Merge(g, q), p)[k]
    decreases Table(p), 0
  {
    var gp, gq := Merge(g, p), Merge(g, q);
    if k in p && k in q {
      assert Slot(gp, k) == gp[k] && Slot(gq, k) == gq[k];
      if Slot(g, k).Table? {
        MergeCommutesOnDisjoint(Slot(g, k).entries, p[k].entries, q[k].entries);
      }
    } else if k in p {
      assert Slot(gq, k) == Slot(g, k);
    } else if k in q {
      assert Slot(gp, k) == Slot(g, k);
    }
  }
}
