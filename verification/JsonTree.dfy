/**
 The values that error details and log fields hold, as trees, with the two walks over them:
 the deep copy of core/internal/apperror/apperror.go and the redaction of core/internal/logger/redact.go.

 A Go map or slice can be nil; both walks keep a nil map but turn a nil []any into an empty one.
 */
module JsonTree {
  import opened Wrappers
  import opened Text
  import opened DenyList

  /**
   Anything the walks do not look into.  Shared stands for a pointer or a map or slice of another type;
   all values with the same cell refer to the same memory.
   */
  datatype Scalar = Str(text: string) | Other(repr: string) | Shared(cell: nat)

  datatype Tree =
    | Leaf(value: Scalar)
    | NilObj
    | Obj(fields: map<string, Tree>)
    | NilArr
    | Arr(items: seq<Tree>)

  // ---------------------------------------------------------------- deep copy

  /** The tree of a deep copy (cloneDetails, cloneValue). */
  function Clone(t: Tree): Tree {
    match t
    case Leaf(_) => t
    case NilObj => NilObj
    case Obj(fields) => Obj(map k | k in fields :: Clone(fields[k]))
    case NilArr => Arr([])
    case Arr(items) => Arr(seq(|items|, i requires 0 <= i < |items| => Clone(items[i])))
  }

  /** No nil slice anywhere. */
  predicate NoNilArr(t: Tree) {
    match t
    case Obj(fields) => forall k | k in fields :: NoNilArr(fields[k])
    case NilArr => false
    case Arr(items) => forall i | 0 <= i < |items| :: NoNilArr(items[i])
    case _ => true
  }

  lemma {:induction false} CloneHasNoNilArr(t: Tree)
    ensures NoNilArr(Clone(t))
  {
    match t
    case Obj(fields) =>
      forall k | k in fields {
        CloneHasNoNilArr(fields[k]);
      }
    case Arr(items) =>
      forall i | 0 <= i < |items| {
        CloneHasNoNilArr(items[i]);
      }
    case _ =>
  }

  /** The copy equals the original exactly when the original holds no nil slice. */
  lemma {:induction false} CloneIsExact(t: Tree)
    ensures Clone(t) == t <==> NoNilArr(t)
  {
    CloneHasNoNilArr(t);
    match t
    case Obj(fields) =>
      if NoNilArr(t) {
        forall k | k in fields ensures Clone(fields[k]) == fields[k] {
          CloneIsExact(fields[k]);
        }
        assert Clone(t).fields == fields;
      }
    case Arr(items) =>
      if NoNilArr(t) {
        forall i | 0 <= i < |items| ensures Clone(items[i]) == items[i] {
          CloneIsExact(items[i]);
        }
        assert Clone(t).items == items;
      }
    case _ =>
  }

  /** Copying a copy changes nothing: what one reader of an error gets, every later reader gets. */
  lemma {:induction false} CloneIsIdempotent(t: Tree)
    ensures Clone(Clone(t)) == Clone(t)
  {
    CloneHasNoNilArr(t);
    CloneIsExact(Clone(t));
  }

  // ---------------------------------------------------------------- shared memory inside

  /** What the memory behind Shared values holds. */
  type Cells = map<nat, string>

  function CellText(cells: Cells, cell: nat): string {
    if cell in cells then cells[cell] else ""
  }

  /** A tree as a reader sees it who follows the Shared values too. */
  function Seen(t: Tree, cells: Cells): Tree {
    match t
    case Leaf(Shared(cell)) => Leaf(Other(CellText(cells, cell)))
    case Obj(fields) => Obj(map k | k in fields :: Seen(fields[k], cells))
    case Arr(items) => Arr(seq(|items|, i requires 0 <= i < |items| => Seen(items[i], cells)))
    case _ => t
  }

  predicate NoShared(t: Tree) {
    match t
    case Leaf(value) => !value.Shared?
    case Obj(fields) => forall k | k in fields :: NoShared(fields[k])
    case Arr(items) => forall i | 0 <= i < |items| :: NoShared(items[i])
    case _ => true
  }

  lemma {:induction false} SeenIsStable(t: Tree, a: Cells, b: Cells)
    requires NoShared(t)
    ensures Seen(t, a) == Seen(t, b)
  {
    match t
    case Obj(fields) =>
      forall k | k in fields ensures Seen(fields[k], a) == Seen(fields[k], b) {
        SeenIsStable(fields[k], a, b);
      }
      assert Seen(t, a).fields == Seen(t, b).fields;
    case Arr(items) =>
      forall i | 0 <= i < |items| ensures Seen(items[i], a) == Seen(items[i], b) {
        SeenIsStable(items[i], a, b);
      }
      assert Seen(t, a).items == Seen(t, b).items;
    case _ =>
  }

  /** A cell whose writes show. */
  lemma {:induction false} SharedShows(t: Tree, cells: Cells) returns (cell: nat, text: string)
    requires !NoShared(t)
    ensures Seen(t, cells[cell := text]) != Seen(t, cells)
  {
    match t
    case Leaf(Shared(c)) =>
      cell, text := c, CellText(cells, c) + "x";
      assert |text| != |CellText(cells, c)|;
    case Obj(fields) =>
      var k :| k in fields && !NoShared(fields[k]);
      cell, text := SharedShows(fields[k], cells);
      assert Seen(t, cells[cell := text]).fields[k] != Seen(t, cells).fields[k];
    case Arr(items) =>
      var i :| 0 <= i < |items| && !NoShared(items[i]);
      cell, text := SharedShows(items[i], cells);
      assert Seen(t, cells[cell := text]).items[i] != Seen(t, cells).items[i];
    case _ =>
  }

  /**
   Whatever is written to shared memory later, a tree goes on looking the same if and only if it has no
   Shared value inside.
   */
  lemma IsolatedIffNoShared(t: Tree, cells: Cells)
    ensures NoShared(t) <==> forall later: Cells :: Seen(t, later) == Seen(t, cells)
  {
    if NoShared(t) {
      forall later: Cells ensures Seen(t, later) == Seen(t, cells) {
        SeenIsStable(t, later, cells);
      }
    } else {
      var cell, text := SharedShows(t, cells);
      assert Seen(t, cells[cell := text]) != Seen(t, cells);
    }
  }

  /** A deep copy keeps exactly the Shared values. */
  lemma {:induction false} CloneKeepsShared(t: Tree)
    ensures NoShared(Clone(t)) <==> NoShared(t)
  {
    match t
    case Obj(fields) =>
      forall k | k in fields ensures NoShared(Clone(t).fields[k]) <==> NoShared(fields[k]) {
        CloneKeepsShared(fields[k]);
      }
    case Arr(items) =>
      forall i | 0 <= i < |items| ensures NoShared(Clone(t).items[i]) <==> NoShared(items[i]) {
        CloneKeepsShared(items[i]);
      }
    case _ =>
  }

  // ---------------------------------------------------------------- redaction

  const MARKER := Leaf(Str(REDACTED))

  /** RedactMap and redactValue. */
  function Redact(lower: Lower, t: Tree): Tree
    decreases t, 0
  {
    match t
    case Leaf(_) => t
    case NilObj => NilObj
    case Obj(fields) =>
      Obj(map k | k in fields :: RedactField(lower, k, fields[k]))
    case NilArr => Arr([])
    case Arr(items) => Arr(seq(|items|, i requires 0 <= i < |items| => Redact(lower, items[i])))
  }

  function RedactField(lower: Lower, k: string, t: Tree): Tree
    decreases t, 1
  {
    if IsFieldKeyToRedact(lower, k) then MARKER else Redact(lower, t)
  }

  /** A nil slice is copied to an empty one, and redacted to an empty one. */
  lemma NilSliceIsLost(lower: Lower)
    ensures Clone(NilArr) == Redact(lower, NilArr) == Arr([]) != NilArr
  {
  }

  lemma {:induction false} RedactIsIdempotent(lower: Lower, t: Tree)
    ensures Redact(lower, Redact(lower, t)) == Redact(lower, t)
  {
    match t
    case Obj(fields) =>
      forall k | k in fields ensures Redact(lower, Redact(lower, fields[k])) == Redact(lower, fields[k]) {
        RedactIsIdempotent(lower, fields[k]);
      }
      assert Redact(lower, Redact(lower, t)).fields == Redact(lower, t).fields;
    case Arr(items) =>
      forall i | 0 <= i < |items| ensures Redact(lower, Redact(lower, items[i])) == Redact(lower, items[i]) {
        RedactIsIdempotent(lower, items[i]);
      }
      assert Redact(lower, Redact(lower, t)).items == Redact(lower, t).items;
    case _ =>
  }

  // ---------------------------------------------------------------- paths into a tree

  datatype Segment = Key(key: string) | Index(i: nat)

  /** The part of a tree below a path, if the path exists. */
  function At(t: Tree, path: seq<Segment>): Option<Tree>
    decreases |path|
  {
    if path == [] then Some(t)
    else
      match (path[0], t)
      case (Key(k), Obj(fields)) => if k in fields then At(fields[k], path[1..]) else None
      case (Index(i), Arr(items)) => if i < |items| then At(items[i], path[1..]) else None
      case _ => None
  }

  /** No key on the path is on the deny-list. */
  predicate Visible(lower: Lower, path: seq<Segment>) {
    forall i :: 0 <= i < |path| && path[i].Key? ==> !IsFieldKeyToRedact(lower, path[i].key)
  }

  /** What a node shows by itself: its leaf value, its set of keys or its length. */
  datatype Shape = Absent | LeafShape(value: Scalar) | NilShape | Keys(keys: set<string>) | Length(n: nat)

  function ShapeOf(t: Option<Tree>): Shape {
    match t
    case None => Absent
    case Some(Leaf(v)) => LeafShape(v)
    case Some(NilObj) => NilShape
    case Some(Obj(fields)) => Keys(fields.Keys)
    case Some(NilArr) => Length(0)
    case Some(Arr(items)) => Length(|items|)
  }

  /** Along a path without denied keys, redaction changes nothing but what lies below it. */
  lemma {:induction false} RedactAlongVisiblePath(lower: Lower, t: Tree, path: seq<Segment>)
    requires Visible(lower, path)
    ensures At(Redact(lower, t), path) ==
            match At(t, path) { case None => None case Some(sub) => Some(Redact(lower, sub)) }
    decreases |path|
  {
    if path != [] {
      assert Visible(lower, path[1..]);
      match (path[0], t)
      case (Key(k), Obj(fields)) =>
        if k in fields {
          assert !IsFieldKeyToRedact(lower, k);
          RedactAlongVisiblePath(lower, fields[k], path[1..]);
        }
      case (Index(i), Arr(items)) =>
        if i < |items| {
          RedactAlongVisiblePath(lower, items[i], path[1..]);
        }
      case _ =>
    }
  }

  lemma {:induction false} AtConcat(t: Tree, a: seq<Segment>, b: seq<Segment>)
    ensures At(t, a + b) == match At(t, a) { case None => None case Some(sub) => At(sub, b) }
    decreases |a|
  {
    if a == [] {
      assert a + b == b;
    } else {
      assert (a + b)[1..] == a[1..] + b;
      match (a[0], t)
      case (Key(k), Obj(fields)) =>
        if k in fields {
          AtConcat(fields[k], a[1..], b);
        }
      case (Index(i), Arr(items)) =>
        if i < |items| {
          AtConcat(items[i], a[1..], b);
        }
      case _ =>
    }
  }

  /** No part of a tree is the tree itself. */
  lemma {:induction false} NoTreeInsideItself(t: Tree, path: seq<Segment>)
    requires path != []
    ensures At(t, path) != Some(t)
    decreases t
  {
    if At(t, path) == Some(t) {
      assert path == path[..1] + path[1..];
      AtConcat(t, path[..1], path[1..]);
      var c := At(t, path[..1]).value;
      AtConcat(c, path[1..], path[..1]);
      NoTreeInsideItself(c, path[1..] + path[..1]);
    }
  }

  /** Path by path: a deep copy has at every path the leaf, key set or length of the original. */
  lemma {:induction false} CloneAlongPath(t: Tree, path: seq<Segment>)
    ensures At(Clone(t), path) == match At(t, path) { case None => None case Some(sub) => Some(Clone(sub)) }
    ensures ShapeOf(At(Clone(t), path)) == ShapeOf(At(t, path))
    decreases |path|
  {
    if path != [] {
      match (path[0], t)
      case (Key(k), Obj(fields)) =>
        if k in fields {
          CloneAlongPath(fields[k], path[1..]);
        }
      case (Index(i), Arr(items)) =>
        if i < |items| {
          CloneAlongPath(items[i], path[1..]);
        }
      case _ =>
    }
  }

  /**
   Node by node: every visible node keeps its leaf value, key set or length, and every visible denied
   key that exists holds the marker.
   */
  lemma RedactKeepsVisibleShape(lower: Lower, t: Tree, path: seq<Segment>)
    requires Visible(lower, path)
    ensures ShapeOf(At(Redact(lower, t), path)) == ShapeOf(At(t, path))
    ensures forall k :: IsFieldKeyToRedact(lower, k) ==>
              At(Redact(lower, t), path + [Key(k)]) == if At(t, path + [Key(k)]).Some? then Some(MARKER) else None
  {
    RedactAlongVisiblePath(lower, t, path);
    forall k | IsFieldKeyToRedact(lower, k)
      ensures At(Redact(lower, t), path + [Key(k)]) == if At(t, path + [Key(k)]).Some? then Some(MARKER) else None
    {
      AtConcat(t, path, [Key(k)]);
      AtConcat(Redact(lower, t), path, [Key(k)]);
    }
  }

  /** A key that is on the deny-list in any letter case hides its value, at any depth. */
  lemma AnyLetterCaseIsHidden(lower: Lower, t: Tree, path: seq<Segment>, k: string)
    requires LowersAscii(lower) && IsAscii(k) && AsciiLower(k) in FIELD_KEYS
    requires Visible(lower, path) && At(t, path + [Key(k)]).Some?
    ensures At(Redact(lower, t), path + [Key(k)]) == Some(MARKER)
  {
    DenyListIgnoresCase(lower, k);
    RedactKeepsVisibleShape(lower, t, path);
  }

  /** The two trees show the same at every visible path. */
  ghost predicate SameVisible(lower: Lower, a: Tree, b: Tree) {
    forall path :: Visible(lower, path) ==> ShapeOf(At(a, path)) == ShapeOf(At(b, path))
  }

  lemma SameVisibleBelow(lower: Lower, a: Tree, b: Tree, s: Segment)
    requires SameVisible(lower, a, b) && Visible(lower, [s])
    requires At(a, [s]).Some? && At(b, [s]).Some?
    ensures SameVisible(lower, At(a, [s]).value, At(b, [s]).value)
  {
    forall path | Visible(lower, path)
      ensures ShapeOf(At(At(a, [s]).value, path)) == ShapeOf(At(At(b, [s]).value, path))
    {
      AtConcat(a, [s], path);
      AtConcat(b, [s], path);
      assert Visible(lower, [s] + path);
    }
  }

  /** Redaction reveals exactly the part above and beside the denied keys: nothing less, nothing more. */
  lemma {:induction false} RedactRevealsExactlyTheVisible(lower: Lower, a: Tree, b: Tree)
    ensures Redact(lower, a) == Redact(lower, b) <==> SameVisible(lower, a, b)
  {
    if Redact(lower, a) == Redact(lower, b) {
      forall path | Visible(lower, path) ensures ShapeOf(At(a, path)) == ShapeOf(At(b, path)) {
        RedactKeepsVisibleShape(lower, a, path);
        RedactKeepsVisibleShape(lower, b, path);
      }
    }
    if SameVisible(lower, a, b) {
      VisibleDeterminesRedact(lower, a, b);
    }
  }

  lemma {:induction false} VisibleDeterminesRedact(lower: Lower, a: Tree, b: Tree)
    requires SameVisible(lower, a, b)
    ensures Redact(lower, a) == Redact(lower, b)
    decreases a
  {
    assert Visible(lower, []) && ShapeOf(At(a, [])) == ShapeOf(At(b, []));
    match a
    case Obj(fields) =>
      forall k | k in fields && !IsFieldKeyToRedact(lower, k)
        ensures Redact(lower, fields[k]) == Redact(lower, b.fields[k])
      {
        SameVisibleBelow(lower, a, b, Key(k));
        VisibleDeterminesRedact(lower, fields[k], b.fields[k]);
      }
      assert Redact(lower, a).fields == Redact(lower, b).fields;
    case Arr(items) =>
      forall i | 0 <= i < |items| ensures b.Arr? && Redact(lower, items[i]) == Redact(lower, b.items[i]) {
        SameVisibleBelow(lower, a, b, Index(i));
        VisibleDeterminesRedact(lower, items[i], b.items[i]);
      }
      assert Redact(lower, a).items == Redact(lower, b).items;
    case _ =>
  }
}
