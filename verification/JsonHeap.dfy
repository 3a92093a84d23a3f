/**
 The same two walks on the heap: Go maps and slices are objects that anyone holding a reference can
 update.  `Rep` ties a heap value to the tree it spells out.  One object may be reached twice; a value
 has a tree exactly when it is acyclic (`TreeExistsIffAcyclic`).
 */
module JsonHeap {
  import opened Wrappers
  import opened DenyList
  import opened JsonTree

  /** A map[string]any. */
  class GoMap {
    var entries: map<string, Any>

    constructor ()
      ensures entries == map[]
    {
      entries := map[];
    }
  }

  /** A value of type any; a []any is the array behind it. */
  datatype Any =
    | Plain(value: Scalar)
    | NilMap
    | MapRef(m: GoMap)
    | NilSlice
    | SliceRef(a: array<Any>)

  /** `v` spells out `t`, touching only objects in `fp`. */
  ghost predicate Rep(v: Any, t: Tree, fp: set<object>)
    reads fp
    decreases t
  {
    match v
    case Plain(s) => t == Leaf(s)
    case NilMap => t == NilObj
    case MapRef(m) =>
      && t.Obj? && m in fp && m.entries.Keys == t.fields.Keys
      && forall k | k in t.fields :: Rep(m.entries[k], t.fields[k], fp)
    case NilSlice => t == NilArr
    case SliceRef(a) =>
      && t.Arr? && a in fp && a.Length == |t.items|
      && forall i | 0 <= i < a.Length :: Rep(a[i], t.items[i], fp)
  }

  lemma {:induction false} RepGrows(v: Any, t: Tree, fp: set<object>, more: set<object>)
    requires Rep(v, t, fp) && fp <= more
    ensures Rep(v, t, more)
    decreases t
  {
    match v
    case MapRef(m) =>
      forall k | k in t.fields ensures Rep(m.entries[k], t.fields[k], more) {
        RepGrows(m.entries[k], t.fields[k], fp, more);
      }
    case SliceRef(a) =>
      forall i | 0 <= i < a.Length ensures Rep(a[i], t.items[i], more) {
        RepGrows(a[i], t.items[i], fp, more);
      }
    case _ =>
  }

  /** A heap value spells out one tree only. */
  lemma {:induction false} RepIsUnique(v: Any, t: Tree, u: Tree, fp: set<object>, gp: set<object>)
    requires Rep(v, t, fp) && Rep(v, u, gp)
    ensures t == u
    decreases t
  {
    match v
    case MapRef(m) =>
      forall k | k in t.fields ensures t.fields[k] == u.fields[k] {
        RepIsUnique(m.entries[k], t.fields[k], u.fields[k], fp, gp);
      }
      assert t.fields == u.fields;
    case SliceRef(a) =>
      forall i | 0 <= i < a.Length ensures t.items[i] == u.items[i] {
        RepIsUnique(a[i], t.items[i], u.items[i], fp, gp);
      }
      assert t.items == u.items;
    case _ =>
  }

  /** The object that `v` refers to directly, if any, is in `s`. */
  ghost predicate Known(v: Any, s: set<object>) {
    match v
    case MapRef(m) => m in s
    case SliceRef(a) => a in s
    case _ => true
  }

  /** Following references from `s` never leaves `s`. */
  ghost predicate Closed(s: set<object>)
    reads s
  {
    && (forall m: GoMap | m in s :: forall k | k in m.entries :: Known(m.entries[k], s))
    && (forall a: array<Any> | a in s :: forall i | 0 <= i < a.Length :: Known(a[i], s))
  }

  // ---------------------------------------------------------------- acyclic values

  ghost predicate HasTree(v: Any, s: set<object>)
    reads s
  {
    exists t :: Rep(v, t, s)
  }

  /** The value that a path of keys and indices leads to, if the path exists. */
  ghost function Follow(v: Any, path: seq<Segment>, s: set<object>): Option<Any>
    reads s
    decreases |path|
  {
    if path == [] then Some(v)
    else
      match (path[0], v)
      case (Key(k), MapRef(m)) =>
        if m in s && k in m.entries then Follow(m.entries[k], path[1..], s) else None
      case (Index(i), SliceRef(a)) =>
        if a in s && i < a.Length then Follow(a[i], path[1..], s) else None
      case _ => None
  }

  /** No path through maps and slices leads back to a value that it has passed. */
  ghost predicate Acyclic(v: Any, s: set<object>)
    reads s
  {
    forall path: seq<Segment>, i: nat :: i < |path| && Follow(v, path, s).Some? ==>
      Follow(v, path[..i], s) != Follow(v, path, s)
  }

  lemma {:induction false} FollowConcat(v: Any, p: seq<Segment>, q: seq<Segment>, s: set<object>)
    ensures Follow(v, p + q, s) == match Follow(v, p, s) { case None => None case Some(w) => Follow(w, q, s) }
    decreases |p|
  {
    if p == [] {
      assert p + q == q;
    } else {
      assert (p + q)[1..] == p[1..] + q;
      match (p[0], v)
      case (Key(k), MapRef(m)) =>
        if m in s && k in m.entries {
          FollowConcat(m.entries[k], p[1..], q, s);
        }
      case (Index(i), SliceRef(a)) =>
        if a in s && i < a.Length {
          FollowConcat(a[i], p[1..], q, s);
        }
      case _ =>
    }
  }

  /** A path on the heap is a path in the tree that the value spells out. */
  lemma {:induction false} FollowIsAt(v: Any, t: Tree, s: set<object>, path: seq<Segment>)
    requires Rep(v, t, s)
    ensures Follow(v, path, s).Some? ==> At(t, path).Some? && Rep(Follow(v, path, s).value, At(t, path).value, s)
    decreases |path|
  {
    if path != [] {
      match (path[0], v)
      case (Key(k), MapRef(m)) =>
        if k in m.entries {
          FollowIsAt(m.entries[k], t.fields[k], s, path[1..]);
        }
      case (Index(i), SliceRef(a)) =>
        if i < a.Length {
          FollowIsAt(a[i], t.items[i], s, path[1..]);
        }
      case _ =>
    }
  }

  lemma TreeMeansAcyclic(v: Any, t: Tree, s: set<object>)
    requires Rep(v, t, s)
    ensures Acyclic(v, s)
  {
    forall path: seq<Segment>, i: nat | i < |path| && Follow(v, path, s).Some?
      ensures Follow(v, path[..i], s) != Follow(v, path, s)
    {
      var p, q := path[..i], path[i..];
      assert path == p + q;
      FollowConcat(v, p, q, s);
      FollowIsAt(v, t, s, p);
      var w, u := Follow(v, p, s).value, At(t, p).value;
      FollowIsAt(w, u, s, q);
      if Follow(w, q, s) == Some(w) {
        RepIsUnique(w, u, At(u, q).value, s, s);
        NoTreeInsideItself(u, q);
      }
    }
  }

  /** Every value reachable from `v` is known in `avail`. */
  ghost predicate Within(v: Any, s: set<object>, avail: set<object>)
    reads s
  {
    forall path :: Follow(v, path, s).Some? ==> Known(Follow(v, path, s).value, avail)
  }

  /** One step down from an acyclic value: still acyclic, and the value's own object is behind. */
  lemma StepDown(v: Any, g: Segment, s: set<object>, avail: set<object>)
    requires Acyclic(v, s) && Within(v, s, avail)
    requires Follow(v, [g], s).Some?
    ensures var w := Follow(v, [g], s).value;
            && Acyclic(w, s)
            && (v.MapRef? ==> Within(w, s, avail - {v.m}))
            && (v.SliceRef? ==> Within(w, s, avail - {v.a}))
  {
    var w := Follow(v, [g], s).value;
    forall path: seq<Segment>, i: nat | i < |path| && Follow(w, path, s).Some?
      ensures Follow(w, path[..i], s) != Follow(w, path, s)
    {
      FollowConcat(v, [g], path, s);
      FollowConcat(v, [g], path[..i], s);
      assert ([g] + path)[..i + 1] == [g] + path[..i];
    }
    forall path | Follow(w, path, s).Some?
      ensures var x := Follow(w, path, s).value;
              Known(x, avail) && x != v
    {
      FollowConcat(v, [g], path, s);
      assert ([g] + path)[..0] == [];
    }
  }

  lemma KnownChild(v: Any, s: set<object>)
    requires Closed(s) && Known(v, s)
    ensures v.MapRef? ==> forall k | k in v.m.entries ::
              Known(v.m.entries[k], s) && Follow(v, [Key(k)], s) == Some(v.m.entries[k])
    ensures v.SliceRef? ==> forall i | 0 <= i < v.a.Length ::
              Known(v.a[i], s) && Follow(v, [Index(i)], s) == Some(v.a[i])
  {
  }

  lemma {:induction false} ChooseTrees(items: seq<Any>, n: nat, s: set<object>) returns (ts: seq<Tree>)
    requires n <= |items| && forall i | 0 <= i < |items| :: HasTree(items[i], s)
    ensures |ts| == n && forall i | 0 <= i < n :: Rep(items[i], ts[i], s)
  {
    if n == 0 {
      ts := [];
    } else {
      var before := ChooseTrees(items, n - 1, s);
      var last :| Rep(items[n - 1], last, s);
      ts := before + [last];
    }
  }

  /** An acyclic value in a closed set of objects spells out a tree. */
  lemma {:induction false} AcyclicHasTree(v: Any, s: set<object>, avail: set<object>) returns (t: Tree)
    requires Closed(s) && Known(v, s)
    requires Acyclic(v, s) && Within(v, s, avail)
    ensures Rep(v, t, s)
    decreases avail
  {
    assert Follow(v, [], s) == Some(v);
    KnownChild(v, s);
    match v
    case Plain(x) => t := Leaf(x);
    case NilMap => t := NilObj;
    case NilSlice => t := NilArr;
    case MapRef(m) =>
      forall k | k in m.entries ensures HasTree(m.entries[k], s) {
        StepDown(v, Key(k), s, avail);
        var c := AcyclicHasTree(m.entries[k], s, avail - {m});
      }
      t := Obj(map k | k in m.entries :: var c :| Rep(m.entries[k], c, s); c);
    case SliceRef(a) =>
      forall i | 0 <= i < a.Length ensures HasTree(a[i], s) {
        StepDown(v, Index(i), s, avail);
        var c := AcyclicHasTree(a[i], s, avail - {a});
      }
      var ts := ChooseTrees(a[..], a.Length, s);
      t := Arr(ts);
  }

  lemma {:induction false} ClosedMeansWithin(v: Any, s: set<object>, path: seq<Segment>)
    requires Closed(s) && Known(v, s)
    ensures Follow(v, path, s).Some? ==> Known(Follow(v, path, s).value, s)
    decreases |path|
  {
    if path != [] {
      match (path[0], v)
      case (Key(k), MapRef(m)) =>
        if k in m.entries {
          ClosedMeansWithin(m.entries[k], s, path[1..]);
        }
      case (Index(i), SliceRef(a)) =>
        if i < a.Length {
          ClosedMeansWithin(a[i], s, path[1..]);
        }
      case _ =>
    }
  }

  /** The values that spell out a tree are exactly the acyclic ones. */
  lemma TreeExistsIffAcyclic(v: Any, s: set<object>)
    requires Closed(s) && Known(v, s)
    ensures HasTree(v, s) <==> Acyclic(v, s)
  {
    if HasTree(v, s) {
      var t :| Rep(v, t, s);
      TreeMeansAcyclic(v, t, s);
    }
    if Acyclic(v, s) {
      forall path ensures Follow(v, path, s).Some? ==> Known(Follow(v, path, s).value, s) {
        ClosedMeansWithin(v, s, path);
      }
      assert Within(v, s, s);
      var t := AcyclicHasTree(v, s, s);
      assert Rep(v, t, s);
    }
  }

  /** `Rep` as a program can decide it, without a footprint. */
  predicate Spells(v: Any, t: Tree)
    reads *
    decreases t
  {
    match v
    case Plain(s) => t == Leaf(s)
    case NilMap => t == NilObj
    case MapRef(m) =>
      t.Obj? && m.entries.Keys == t.fields.Keys && forall k | k in t.fields :: Spells(m.entries[k], t.fields[k])
    case NilSlice => t == NilArr
    case SliceRef(a) =>
      t.Arr? && a.Length == |t.items| && forall i | 0 <= i < a.Length :: Spells(a[i], t.items[i])
  }

  lemma {:induction false} SpellsIsRep(v: Any, t: Tree, s: set<object>)
    requires Closed(s) && Known(v, s)
    ensures Spells(v, t) <==> Rep(v, t, s)
    decreases t
  {
    match v
    case MapRef(m) =>
      if t.Obj? && m.entries.Keys == t.fields.Keys {
        forall k | k in t.fields ensures Spells(m.entries[k], t.fields[k]) <==> Rep(m.entries[k], t.fields[k], s) {
          SpellsIsRep(m.entries[k], t.fields[k], s);
        }
      }
    case SliceRef(a) =>
      if t.Arr? && a.Length == |t.items| {
        forall i | 0 <= i < a.Length ensures Spells(a[i], t.items[i]) <==> Rep(a[i], t.items[i], s) {
          SpellsIsRep(a[i], t.items[i], s);
        }
      }
    case _ =>
  }

  // ---------------------------------------------------------------- filling a new map or slice

  /** The first `n` elements spell out those of `goal`. */
  ghost predicate SliceFilled(out: array<Any>, n: nat, goal: seq<Tree>, made: set<object>)
    reads out, made
  {
    n <= out.Length == |goal| && forall j | 0 <= j < n :: Rep(out[j], goal[j], made)
  }

  lemma SliceGrows(out: array<Any>, n: nat, goal: seq<Tree>, made: set<object>, more: set<object>)
    requires SliceFilled(out, n, goal, made) && made <= more
    ensures SliceFilled(out, n, goal, more)
  {
    forall j | 0 <= j < n ensures Rep(out[j], goal[j], more) {
      RepGrows(out[j], goal[j], made, more);
    }
  }

  /** out[i] = item, where `item` was just built from the objects `more`. */
  method PutItem(out: array<Any>, i: nat, item: Any, ghost goal: seq<Tree>, ghost made: set<object>, ghost more: set<object>)
    returns (ghost all: set<object>)
    requires i < out.Length && SliceFilled(out, i, goal, made)
    requires Rep(item, goal[i], more)
    requires Closed(made) && Closed(more) && out !in made + more
    modifies out
    ensures all == made + more && Closed(all) && SliceFilled(out, i + 1, goal, all)
  {
    all := made + more;
    SliceGrows(out, i, goal, made, all);
    RepGrows(item, goal[i], more, all);
    out[i] := item;
  }

  /** The keys `done` are in and spell out those of `goal`. */
  ghost predicate MapFilled(out: GoMap, goal: map<string, Tree>, done: set<string>, made: set<object>)
    reads out, made
  {
    && out.entries.Keys == done <= goal.Keys
    && forall k | k in out.entries :: Rep(out.entries[k], goal[k], made)
  }

  lemma MapGrows(out: GoMap, goal: map<string, Tree>, done: set<string>, made: set<object>, more: set<object>)
    requires MapFilled(out, goal, done, made) && made <= more
    ensures MapFilled(out, goal, done, more)
  {
    forall k | k in out.entries ensures Rep(out.entries[k], goal[k], more) {
      RepGrows(out.entries[k], goal[k], made, more);
    }
  }

  lemma MapDone(out: GoMap, goal: map<string, Tree>, made: set<object>)
    requires MapFilled(out, goal, goal.Keys, made) && Closed(made)
    ensures Rep(MapRef(out), Obj(goal), made + {out}) && Closed(made + {out})
  {
    MapGrows(out, goal, goal.Keys, made, made + {out});
  }

  lemma SliceDone(out: array<Any>, goal: seq<Tree>, made: set<object>)
    requires SliceFilled(out, out.Length, goal, made) && Closed(made)
    ensures Rep(SliceRef(out), Arr(goal), made + {out}) && Closed(made + {out})
  {
    SliceGrows(out, out.Length, goal, made, made + {out});
  }

  /** out[k] = item, where `item` was just built from the objects `more`. */
  method PutEntry(out: GoMap, k: string, item: Any, ghost goal: map<string, Tree>, ghost done: set<string>,
                  ghost made: set<object>, ghost more: set<object>)
    returns (ghost all: set<object>)
    requires MapFilled(out, goal, done, made)
    requires k in goal && Rep(item, goal[k], more)
    requires Closed(made) && Closed(more) && out !in made + more
    modifies out
    ensures all == made + more && Closed(all) && MapFilled(out, goal, done + {k}, all)
  {
    all := made + more;
    MapGrows(out, goal, done, made, all);
    RepGrows(item, goal[k], more, all);
    out.entries := out.entries[k := item];
  }

  // ---------------------------------------------------------------- deep copy

  /** cloneValue: the copy spells out the cloned tree in new objects only. */
  method CloneValue(v: Any, ghost t: Tree, ghost fp: set<object>) returns (r: Any, ghost made: set<object>)
    requires Rep(v, t, fp)
    ensures fresh(made) && Closed(made)
    ensures Rep(r, Clone(t), made)
    decreases t, 1
  {
    match v
    case NilMap => r, made := CloneDetails(v, t, fp);
    case MapRef(_) => r, made := CloneDetails(v, t, fp);
    case NilSlice =>
      var out := new Any[0];
      r, made := SliceRef(out), {out};
    case SliceRef(a) =>
      var out := new Any[a.Length](_ => NilMap);
      ghost var goal := Clone(t).items;
      made := {};
      for i := 0 to a.Length
        invariant fresh(made) && out !in made && Closed(made)
        invariant SliceFilled(out, i, goal, made)
        invariant Rep(v, t, fp)
      {
        var item, more := CloneValue(a[i], t.items[i], fp);
        made := PutItem(out, i, item, goal, made, more);
      }
      SliceDone(out, goal, made);
      r, made := SliceRef(out), made + {out};
    case Plain(_) => r, made := v, {};
  }

  /** One round of the loop of cloneDetails. */
  method CloneInto(out: GoMap, k: string, v: Any, ghost t: Tree, ghost fp: set<object>,
                   ghost goal: map<string, Tree>, ghost done: set<string>, ghost made: set<object>)
    returns (ghost all: set<object>)
    requires Rep(v, t, fp)
    requires k in goal && goal[k] == Clone(t)
    requires MapFilled(out, goal, done, made) && Closed(made) && out !in made
    modifies out
    ensures made <= all && fresh(all - made) && Closed(all) && out !in all && MapFilled(out, goal, done + {k}, all)
    decreases t, 2
  {
    var item, more := CloneValue(v, t, fp);
    all := PutEntry(out, k, item, goal, done, made, more);
  }

  /** cloneDetails. */
  method CloneDetails(v: Any, ghost t: Tree, ghost fp: set<object>) returns (r: Any, ghost made: set<object>)
    requires v.NilMap? || v.MapRef?
    requires Rep(v, t, fp)
    ensures r.NilMap? || r.MapRef?
    ensures fresh(made) && Closed(made)
    ensures Rep(r, Clone(t), made)
    decreases t, 0
  {
    if v.NilMap? {
      return NilMap, {};
    }
    var m := v.m;
    var out := new GoMap();
    ghost var goal := Clone(t).fields;
    made := {};
    var todo := m.entries.Keys;
    ghost var done := {};
    while todo != {}
      invariant todo <= t.fields.Keys
      invariant fresh(made) && out !in made && Closed(made)
      invariant done == t.fields.Keys - todo
      invariant MapFilled(out, goal, done, made)
      invariant Rep(v, t, fp)
    {
      var k :| k in todo;
      todo := todo - {k};
      made := CloneInto(out, k, m.entries[k], t.fields[k], fp, goal, done, made);
      done := done + {k};
    }
    MapDone(out, goal, made);
    r, made := MapRef(out), made + {out};
  }

  // ---------------------------------------------------------------- redaction

  /** redactValue: the result spells out the redacted tree in new objects only. */
  method RedactValue(lower: Lower, v: Any, ghost t: Tree, ghost fp: set<object>) returns (r: Any, ghost made: set<object>)
    requires Rep(v, t, fp)
    ensures fresh(made) && Closed(made)
    ensures Rep(r, Redact(lower, t), made)
    decreases t, 1
  {
    match v
    case NilMap => r, made := RedactMap(lower, v, t, fp);
    case MapRef(_) => r, made := RedactMap(lower, v, t, fp);
    case NilSlice =>
      var out := new Any[0];
      r, made := SliceRef(out), {out};
    case SliceRef(a) =>
      var out := new Any[a.Length](_ => NilMap);
      ghost var goal := Redact(lower, t).items;
      made := {};
      for i := 0 to a.Length
        invariant fresh(made) && out !in made && Closed(made)
        invariant SliceFilled(out, i, goal, made)
        invariant Rep(v, t, fp)
      {
        var item, more := RedactValue(lower, a[i], t.items[i], fp);
        made := PutItem(out, i, item, goal, made, more);
      }
      SliceDone(out, goal, made);
      r, made := SliceRef(out), made + {out};
    case Plain(_) => r, made := v, {};
  }

  /** One round of the loop of RedactMap. */
  method RedactInto(lower: Lower, out: GoMap, k: string, v: Any, ghost t: Tree, ghost fp: set<object>,
                    ghost goal: map<string, Tree>, ghost done: set<string>, ghost made: set<object>)
    returns (ghost all: set<object>)
    requires Rep(v, t, fp)
    requires k in goal && goal[k] == RedactField(lower, k, t)
    requires MapFilled(out, goal, done, made) && Closed(made) && out !in made
    modifies out
    ensures made <= all && fresh(all - made) && Closed(all) && out !in all && MapFilled(out, goal, done + {k}, all)
    decreases t, 2
  {
    if IsFieldKeyToRedact(lower, k) {
      all := PutEntry(out, k, Plain(Str(REDACTED)), goal, done, made, {});
    } else {
      var item, more := RedactValue(lower, v, t, fp);
      all := PutEntry(out, k, item, goal, done, made, more);
    }
  }

  /** RedactMap. */
  method RedactMap(lower: Lower, v: Any, ghost t: Tree, ghost fp: set<object>) returns (r: Any, ghost made: set<object>)
    requires v.NilMap? || v.MapRef?
    requires Rep(v, t, fp)
    ensures r.NilMap? || r.MapRef?
    ensures fresh(made) && Closed(made)
    ensures Rep(r, Redact(lower, t), made)
    decreases t, 0
  {
    if v.NilMap? {
      return NilMap, {};
    }
    var m := v.m;
    var out := new GoMap();
    ghost var goal := Redact(lower, t).fields;
    made := {};
    var todo := m.entries.Keys;
    ghost var done := {};
    while todo != {}
      invariant todo <= t.fields.Keys
      invariant fresh(made) && out !in made && Closed(made)
      invariant done == t.fields.Keys - todo
      invariant MapFilled(out, goal, done, made)
      invariant Rep(v, t, fp)
    {
      var k :| k in todo;
      todo := todo - {k};
      made := RedactInto(lower, out, k, m.entries[k], t.fields[k], fp, goal, done, made);
      done := done + {k};
    }
    MapDone(out, goal, made);
    r, made := MapRef(out), made + {out};
  }
}
